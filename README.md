# protocall resolver and handlers in Dafny

protocall resolves configuration data. A resolver walks a data tree. It rebuilds
arrays and plain objects, and hands every string tagged `name:` to the stack of
handlers registered under `name`. The stages run as a waterfall: each handler
receives the previous one's output, and the first failure ends the run. A
resolver may have a parent. The parent's names are supported too, and its
handlers run before the child's own. `use(name, impl)` pushes a handler and
returns a one-shot `unuse` closure that splices that very registration out
again.

The handler library supplies the `env:` and `echo:` handlers, which read a small
reference grammar with an optional `|filter` suffix, and the `regexp:` handler's
`/pattern/flags` split. Their pure string logic is modelled: the two grammars as
a backtracking regular-expression engine reads them, `trim` and `split` of the
filter spec, the filter table and its `shouldMerge` rule, the `b` and `!b`
filters, and the environment lookup.

Layout:

- `basics.dfy` (`Basics`): `Option`, `Result`, `StartsWith`, `NoDup`.
- `protocols.dfy` (`Protocols`): `_.uniq` (`Dedup`) and `_.find` over tagged
  names (`FirstMatch`), with their ordering lemmas.
- `pipeline.dfy` (`Pipeline`): values, handler implementations classified by
  arity, registry entries, and the waterfall (`Seed`, `Continue`, `RunStack`).
- `resolver.dfy` (`Resolution`):
  - the `Resolver` class, whose methods `Use` and `UseAll` change the registry
    in place;
  - the `Unregister` class, which stands for the `unuse` closure and its
    `removed` flag;
  - the lookup and traversal functions over the parent chain;
  - the registry invariant `Registry`.
- `scenarios.dfy` (`Scenarios`): client runs replaying the repository's
  resolver tests.
- `text.dfy` (`Text`): JavaScript line terminators, `\w`, `trim`, `split` with a
  one-character separator.
- `handlers.dfy` (`Handlers`): the env and echo grammars, filter dispatch,
  `getValue`, `shouldMerge`, `b`/`!b`, and the split part of `toRegexp`.
- `handler_cases.dfy` (`HandlerCases`): the handler test cases replayed.

Modelling choices:

- **Registration identity.** A `Handler` object's identity is a registration id.
  It is drawn from the counter `nextId`, which `use` increments.
- **The registry invariant `Registry`.** It ties each issued closure's `removed`
  flag to whether its id is still in its stack.
- **Handler arity.** An implementation's `length` becomes a constructor:
  - `Transform` for at most one parameter;
  - `Cont` for two;
  - `ContFile` for three or more.

  A handler's own behaviour is a function parameter of its constructor.
- **Empty stack.** A name whose every handler was unregistered stays in
  `supportedProtocols`. Resolving a string tagged with it is the explicit error
  `NoHandlers`, which stands for the source's TypeError on `tasks[0].length`.
  When that string is the whole input, `resolve` throws it (`Thrown`) before
  any promise exists or the callback is called. Nested in an array or object,
  it rejects the fan-out instead.

## Model

| member | source | states |
|---|---|---|
| Resolution.Resolver.constructor | src/resolver.js:27-30 | A new resolver has the given parent and no names, stacks or issued closures, and satisfies the parent-chain and registry invariants |
| Resolution.Resolver.Use | src/resolver.js:71-79 | Appends a new entry with a fresh id at the end of the name's stack. It creates the stack, and appends the name to the key order, only when the name is absent. No other stack changes. It returns a fresh, unspent closure bound to that entry and keeps the registry invariant |
| Resolution.Resolver.UseAll | src/resolver.js:64-70 | Registers the pairs in order: the stacks and key order are those of successive `use` calls. It returns one closure per pair, bound to that pair's name and to consecutive ids, and keeps the registry invariant |
| Resolution.Unregister.Call | src/resolver.js:79-86 | The first call removes exactly the entry with this closure's id, the first with that id, keeping the others in order. It returns that entry's implementation, keeps the name registered, and keeps the invariant. Later calls return nothing and change nothing |
| Resolution.RegistryPush | src/resolver.js:71-76 | Pushing an entry with the next id and a new unspent closure preserves the registry invariant |
| Resolution.RegistryPop | src/resolver.js:80-83 | Splicing a live closure's entry out keeps every other closure's spent flag truthful and leaves that id absent |
| Resolution.Resolver.SupportedProtocols | src/resolver.js:41-44 | The supported names contain no duplicates |
| Resolution.Resolver.SupportedProtocolsLayout | src/resolver.js:41-44 | The supported names are the resolver's own names in insertion order, followed by the parent's supported names that are not its own. Emptied names stay |
| Protocols.Dedup | src/resolver.js:43 | `_.uniq` yields no duplicates and exactly the same set of names |
| Protocols.DedupAppend | src/resolver.js:43 | Deduplicating `a + b` gives the deduplicated `a`, then the deduplicated `b` without names of `a` |
| Protocols.DedupOfNoDup | src/resolver.js:43 | A list without duplicates is unchanged by `_.uniq` |
| Protocols.Without | src/resolver.js:43 | Filtering keeps exactly the names not excluded |
| Protocols.MatchIndex | src/resolver.js:38 | The position found is the first whose name tags the value, or the end when none does |
| Protocols.FirstMatch | src/resolver.js:38 | `_.find` returns a listed name that tags the value, and returns nothing exactly when no listed name does |
| Protocols.FirstMatchAppend | src/resolver.js:38-43 | Searching `a + b` finds `a`'s first match if it has one, otherwise `b`'s |
| Protocols.FirstMatchDedup | src/resolver.js:38-43 | Dropping later duplicates never changes the first match |
| Protocols.TagPositions | src/resolver.js:38 | A tagged value spells the name, then `:` |
| Protocols.AtMostOneTag | src/resolver.js:38 | Two names without `:` that both tag one value are equal |
| Protocols.MatchIsOrderIndependent | src/resolver.js:38 | When no name contains `:`, the name that tags a value is found whatever the list order |
| Resolution.Resolver.GetProtocol | src/resolver.js:37-39 | The result is a supported name that tags the value. There is no result exactly when no supported name tags it |
| Resolution.Resolver.GetProtocolOwnFirst | src/resolver.js:37-44 | Own names are searched first. When none of them matches, the answer is the parent's |
| Resolution.Resolver.GetProtocolUnique | src/resolver.js:37-39 | With no `:` in any supported name, a value tagged with a supported name matches that name |
| Resolution.Resolver.ResolvesContentAfterTag | src/resolver.js:105-121 | When `p` is a non-empty supported name and no supported name contains `:`, a string `p:content` runs the assembled stack of `p` on exactly `content` |
| Resolution.Resolver.ChildRunsAfterParent | src/resolver.js:51-55 | The assembled stack is the parent's then the child's own, so the child's handlers continue from the parent's result |
| Resolution.Resolver.EmptyStackFails | src/resolver.js:105-118 | A string whose matched name is non-empty and whose assembled stack is empty fails with `NoHandlers` instead of passing through |
| Resolution.Resolver.ItemsShape | src/resolver.js:95-96 | An array resolves iff every member does. The result has the same length, element i being member i's resolution. A failure is some member's failure |
| Resolution.Resolver.FieldsShape | src/resolver.js:98-99 | An object resolves iff every value does. The result has the same keys, each with its value resolved; the model lists them in input order. A failure is some value's failure |
| Resolution.Resolver.UntouchedIsCopy | src/resolver.js:101-106 | Data holding no tagged string comes back unchanged |
| Resolution.Resolver.CallbackInFilenamePosition | src/resolver.js:130-133 | A function in the filename position with no callback is the callback, the filename then null |
| Resolution.Resolver.CallbackMatchesPromise | src/resolver.js:135-137 | Unless `resolve` throws, in which case both modes throw the same error, the callback receives `(null, data)` exactly when the promise resolves to `data`, and `(err)` exactly when it rejects with `err` |
| Resolution.Resolver.Resolve | src/resolver.js:129-138 | It throws exactly when the input is a string tagged with an emptied name, and then throws `NoHandlers` of that name. Without a callback it returns `_resolve`'s outcome. With a truthy callback that is not a function, success becomes the `.then` TypeError while a failure passes on unchanged |
| Resolution.Resolver.EmptyStackThrowsOnlyAtTop | src/resolver.js:118-135 | A string whose matched name is non-empty and whose assembled stack is empty throws out of `resolve` whatever the callback. The same string inside an array only rejects the returned promise |
| Resolution.Resolver.NestedEmptyStack | src/resolver.js:95-118 | An array whose only member is tagged with an emptied name fails with that member's `NoHandlers` |
| Resolution.Resolver.GetHandlers | src/resolver.js:51-55 | The assembled stack ends with the resolver's own stack for the name, and a root resolver's is exactly its own |
| Resolution.Resolver.ResolveString | src/resolver.js:101-121 | A string tagged with no supported name comes back unchanged. A failure only comes from a matched, non-empty name |
| Resolution.Resolver.ResolveValue | src/resolver.js:94-103 | Leaves come back unchanged. A resolved array is an array of the same length, and a resolved object an object with the same number of fields |
| Resolution.Resolver.ResolveItems | src/resolver.js:95-96 | A successful fan-out over an array has one result per member, and an empty array gives an empty one |
| Resolution.Resolver.ResolveFields | src/resolver.js:98-99 | A successful fan-out over an object has one field per input field, with the same keys |
| Pipeline.IndexOfId | src/resolver.js:82 | `indexOf` finds the first entry with the id, or -1 when there is none |
| Pipeline.RemoveEntry | src/resolver.js:83 | Splicing one entry out keeps ids distinct and removes exactly that entry's id |
| Pipeline.PushEntry | src/resolver.js:74 | Pushing an entry with a fresh id keeps ids distinct and adds exactly that id |
| Pipeline.Seed | src/resolver.js:110-120 | A first stage with fewer than three parameters runs on the content as any later stage would. Only a file-aware first stage is bootstrapped differently |
| Pipeline.Step | src/resolver.js:111-121 | A handler of three or more parameters after the first stage is the explicit error `FileHandlerNotFirst` |
| Pipeline.Continue | src/resolver.js:121 | No stages never fail, and a single stage is that stage's step |
| Pipeline.RunStack | src/resolver.js:117-121 | An empty stack fails. A one-handler stack is its bootstrapped first stage, and a failing first stage is the whole outcome |
| Pipeline.ContinueAppend | src/resolver.js:121 | Running stages `a + b` is running `a` and then feeding its result to `b` |
| Pipeline.FirstFailureStops | src/resolver.js:121 | Once a prefix of the stages fails, the whole waterfall fails with that error |
| Pipeline.RunStackAppend | src/resolver.js:117-121 | A non-empty stack followed by more stages runs the stack, then the rest |
| Pipeline.TwoTransforms | src/resolver.js:110-121 | Two one-parameter handlers compose in registration order |
| Pipeline.SeedUsesFileOnlyWhenFileAware | src/resolver.js:111-120 | Only a first stage of three or more parameters sees the filename |
| Scenarios.UnuseStack | test/resolver.core.test.js:98-140 | Of three handlers on one name, unregistering the bottom one removes that very entry, not the top. Each comes off exactly once, returning its implementation. The spent closure returns undefined, and the stack ends empty |
| Scenarios.EmptiedStack | src/resolver.js:83-118 | After the only handler of a name is removed, resolving a string tagged with it fails with `NoHandlers` |
| Scenarios.ParentThenChild | test/resolver.async.test.js:242-266 | `foo:maybe` resolves to `maybe_foo` through the parent, and to `maybe_foo_foo` once the child registers its own `foo` |
| Scenarios.FooLookup | src/resolver.js:37-55 | Under that parent, the child supports exactly `foo`, and `foo:maybe` runs the child's assembled `foo` stack on `maybe` |
| Scenarios.InheritedOnly | test/resolver.async.test.js:242-252 | A child with no handlers of its own resolves with its parent's |
| Scenarios.InheritedAndOwn | test/resolver.async.test.js:254-262 | The child's own handler runs after the parent's |
| Text.LeadingSpaces | src/handlers.js:143 | Counts the spaces `s` starts with: all of them are spaces, and the next character is not |
| Text.TrailingSpaces | src/handlers.js:143 | Counts the spaces `s` ends with: all of them are spaces, and the previous character is not |
| Text.Trim | src/handlers.js:143 | `trim` returns an infix that only spaces surround and that neither starts nor ends with a space |
| Text.TrimKeeps | src/handlers.js:143 | A string with no space at either end is its own trim |
| Text.TrimIdempotent | src/handlers.js:143 | Trimming twice is trimming once |
| Text.IndexOf | src/handlers.js:163 | The first occurrence of the character, or the length when there is none |
| Text.Split | src/handlers.js:143 | `split(':')` gives at least one piece, none holding the separator |
| Text.JoinSplit | src/handlers.js:143 | Joining the pieces of a split gives the string back |
| Text.SplitJoin | src/handlers.js:143 | Splitting the join of separator-free pieces gives the pieces back |
| Text.LastIndexOf | src/handlers.js:59 | The last occurrence of the character, or -1 when there is none |
| Text.WordPrefix | src/handlers.js:135 | The longest prefix of `\w` characters |
| Handlers.ShouldMerge | src/handlers.js:107-112 | Merges exactly when `merge` is truthy, or when `replace` is falsy and it is not the case that `merge === false` with `replace` undefined. So `merge: false` with `replace` null, `''`, 0 or false still merges |
| Handlers.FilterSet | src/handlers.js:119-123 | No filters: the defaults. Given filters always win. Merging keeps every default name, and replacing has exactly the given names. Every other name is a default |
| Handlers.Apply | src/handlers.js:78-86 | `b` is true unless the input is one of the four false values, `!b` is its negation, and `r` succeeds exactly on strings |
| Handlers.FlagsAreNegations | src/handlers.js:78-83 | `b` and `!b` always disagree. `b` is false exactly on `''`, `'false'`, `'0'` and undefined |
| Handlers.RunFilterSpec | src/handlers.js:143-147 | A spec written as a name and `:`-free parameters, with no whitespace or line terminator at either end, calls that name with exactly those parameters, or reports the unknown name |
| Handlers.RunFilterErrors | src/handlers.js:143-147 | A filter run fails only with the unknown-filter error or the filter's own error |
| Handlers.TailFilter | src/handlers.js:135 | The continuation `(?:[|](.+))?$` captures nothing on empty text. Otherwise it captures the non-empty text after the `|` |
| Handlers.LazyCut | src/handlers.js:135 | The lazy group stops at the first position from which the continuation matches, over text free of line terminators. It fails when there is none |
| Handlers.DefaultCutSound | src/handlers.js:135 | A matched default is non-empty, dotted, and followed by a well-formed filter that together spell the text |
| Handlers.DefaultCutComplete | src/handlers.js:135 | A default followed by a filter always matches, and is cut exactly at its end when it holds no `|` |
| Handlers.ParseRestSound | src/handlers.js:135 | What follows the name is matched only as the text of an optional default and an optional filter |
| Handlers.ParseRestComplete | src/handlers.js:135 | Every written default/filter suffix is matched, and read back exactly when the default has no `|` |
| Handlers.ParseEnvSound | src/handlers.js:135-137 | A matched reference is in the grammar and spells the value |
| Handlers.RenderName | src/handlers.js:135 | The name of a well-formed reference is exactly its longest `\w` prefix |
| Handlers.ParseEnvExact | src/handlers.js:135-136 | The env pattern matches a value iff the value is a non-empty `\w` name, then optionally `:-` and a non-empty default, then optionally `|` and a non-empty filter |
| Handlers.ParseEnvRoundTrip | src/handlers.js:135-137 | A reference whose default holds no `|` is read back as written |
| Handlers.ParseEcho | src/handlers.js:163 | A match splits the value into a dotted echo string and an optional filter that spell it back |
| Handlers.FirstInnerPipe | src/handlers.js:163 | The first `|` that is not the last character, or the length when there is none |
| Handlers.ParseEchoCut | src/handlers.js:163 | The echo pattern matches iff the value holds no line terminator, and then cuts at the first `|` that is not the last character |
| Handlers.MatchIsDotted | src/handlers.js:163 | Whatever the echo pattern matches holds no line terminator |
| Handlers.GetValue | src/handlers.js:127-132 | A defined variable wins, even when empty. Otherwise a non-empty inline default wins over `options.defaults[key]`, which is used only when both are missing. The result is undefined exactly when all of these are missing |
| Handlers.RunFilter | src/handlers.js:141-147 | A spec whose first `:`-separated part, trimmed, names no filter reports the unknown filter. A success always comes from a known name |
| Handlers.ParseEnv | src/handlers.js:135-137 | The empty value never matches. A match's name is a non-empty prefix of the value, made of `\w` characters |
| Handlers.EnvHandler | src/handlers.js:134-148 | A value outside the env pattern is the malformed-reference error. A well-formed reference without a filter always succeeds |
| Handlers.EchoHandler | src/handlers.js:162-174 | No match is the no-match error. A success has a non-empty echo string that does not end with `|` |
| Handlers.EnvHandlerCases | src/handlers.js:134-147 | The handler rejects as malformed exactly the values outside the grammar. A well-formed reference yields the looked-up value, run through its filter when it has one |
| Handlers.EchoHandlerCases | src/handlers.js:162-173 | No match without line terminators. The echo string runs to the first inner `|`, and an empty one or one ending in `|` is rejected. With no filter the value comes back, otherwise the filter runs on the echo string |
| Handlers.EchoRoundTrip | src/handlers.js:162-173 | A non-empty `|`-free echo string with an optional filter is echoed, or run through that filter, as written |
| Handlers.SplitRegexp | src/handlers.js:59-62 | A split found is a `/P/F` reading of the value |
| Handlers.SplitRegexpExact | src/handlers.js:59-62 | The split finds `(P, F)` iff the value reads as `/P/F`, with P dotted and F only flag letters |
| Handlers.ToRegexp | src/handlers.js:58-64 | A `/P/F` value gives pattern P, with flags F or else the default params. Any other value is the pattern as a whole with the default params |
| HandlerCases.EnvMissingDefault | test/handlers.env.test.js:19 | `TEST_SAMPLE:-` is malformed |
| HandlerCases.EnvMissingFilter | test/handlers.env.test.js:20 | `TEST_SAMPLE|` is malformed |
| HandlerCases.EnvDashedName | test/handlers.env.test.js:21 | `TEST-SAMPLE` is malformed |
| HandlerCases.EnvUnknownFilter | test/handlers.env.test.js:23 | `TEST_SAMPLE|kikou` reports the unknown filter |
| HandlerCases.EnvDefaultThenFilter | test/handlers.env.test.js:106 | An unset variable takes its inline default `true`, which `b` turns into true (variable renamed `UNSET`) |
| HandlerCases.EnvEmptyValueWins | src/handlers.js:128-130 | A variable set to `''` wins over an inline default |
| HandlerCases.SpecIsName | src/handlers.js:143 | A bare filter name with no space at either end and no `:` splits to itself |
| HandlerCases.KnownName | src/handlers.js:143-147 | The specs `b` and `!b` run the default filter of that name without parameters |
| HandlerCases.UnknownName | src/handlers.js:143-146 | The specs `kikou` and `a` report the unknown filter |
| HandlerCases.EchoPlain | test/handlers.echo.test.js:13 | `test` echoes itself |
| HandlerCases.EchoUnknownFilter | test/handlers.echo.test.js:17 | `coucou|a` reports the unknown filter |
| HandlerCases.EchoEmpty | test/handlers.echo.test.js:18 | `|no-string` is rejected |
| HandlerCases.EchoTrailingPipe | test/handlers.echo.test.js:19 | `oups trailing pipe|` is rejected |
| HandlerCases.EchoNotFlag | test/handlers.echo.test.js:55 | `false|!b` gives true |
| HandlerCases.RegexpCases | test/handlers.regexp.test.js:14-20 | `/.*` and `.*/` are whole patterns. `/.*/` and `/.*/gi` split into `.*` and their flags |

## Left out

- `resolveFile` and `isModule` (src/resolver.js:6-11, 140-158) read files, `require` modules and parse JSON. They are not part of this model.
- Asynchrony: `async.parallel` is taken in index order, and `async.waterfall` as a sequence. The model fails a container with its first failing member, while the source reports whichever sibling fails first in time. `ItemsShape` and `FieldsShape` only promise that the reported error is some member's.
- The `.then(cb).catch(cb)` chain calls the callback a second time when the callback itself throws (src/resolver.js:137). The model delivers once.
- `Handler.regex` and `Handler.predicate` (src/resolver.js:18-23) are never used by the engine.
- Key order: `_.keys` lists integer-like keys first in JavaScript. The model keeps insertion order.
- `_.has(protocol, this._handlers)` (src/resolver.js:71) reads a name containing `.` or `[` as a path. The model treats every name as a plain key.
- Names that are `Object.prototype` members (`toString`, `constructor`, …) are found on the prototype by `filters[name]`, `env[key]` and `_handlers[name]`. The model treats them as absent unless registered.
- A handler of three or more parameters after the first stage receives its continuation in the filename slot (src/resolver.js:111, 121). The model gives it the explicit error `FileHandlerNotFirst`.
- A truthy callback that is not a function: on success the source's `.then` throws a TypeError, and the returned promise rejects with it. The model returns the explicit error `NotAFunction` in its place. On failure the rejection passes on unchanged in both.
- `Resolution.Resolver.UseAll`: it returns the closures as a sequence in pair order, not an object keyed by name. It does not state that they are fresh and unspent.
- `Resolution.Unregister.Call`: the `-1` index of `indexOf` cannot occur under the registry invariant, so `splice(-1, 1)` is not modelled.
- Handler bodies that are foreign calls are left out:
  - `path` (`path.resolve`, callsites), `file` (`fs.readFile`), `base64`;
  - the `d`, `from` and `to` filters (`parseInt`, Buffer, crypto);
  - `require`, `exec` and `glob`.

  The `d`, `from`, `to` and user filters are recorded as the call they make (`Applied`).
- `Handlers.ToRegexp` stops before `new RegExp`: invalid patterns and flag errors are not modelled.
- Numbers are integers. NaN and fractions are not modelled.
- Strings are sequences of code points, not of JavaScript's UTF-16 code units. Lengths and indices differ only on text outside the Basic Multilingual Plane; no modelled operation treats surrogates specially.
- Object key order: `async.parallel` over an object writes each `results[key]` as its task finishes, so a resolved object's keys come back in completion order. For `{a: 'echo:x', b: 'y'}`, `b` can come first. `Resolution.Resolver.FieldsShape` keeps input order; it states the keys and values, not the order the source produces.
- Several results from a continuation: a `Cont` or `ContFile` stage that calls its continuation with more than one value shifts the next stage's arguments in `async.waterfall`. The model passes exactly one value between stages.
- `process.env` is a map parameter.
- Inputs whose `match` is a user-defined method (a non-string `value`) are not modelled: both grammars take strings.
- `getDefaultResolver` and the `index.js` wiring, and the type declarations of `index.d.ts`, are not part of this model.
- Test expectations that read `_handlers[p].stack`, or pass initial handlers to the constructor, do not match src/resolver.js:27-30 and 74. The model follows the source.
- `HandlerCases.EnvDefaultThenFilter` uses the variable name `UNSET` for the test's long unset variable name; only absence from the environment matters.
