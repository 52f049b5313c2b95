# A verified model of the gateway's path templates, routing and request population

The gateway turns `google.api.http` annotations into HTTP routes for gRPC services. This project models the part of
it that decides which request reaches which method and with which values:

* **Path templates.** `compile` cuts the verb off a template text, splits it on `/`, merges what braces hold together
  and emits bytecode with a literal pool and a variable table. `route_matcher` executes that bytecode over the
  components of a request path with an operand stack, a cursor and a capture map. The template's meaning is defined
  independently of both: a path matches when its components can be cut into one slice per piece (`*` one component, a
  literal an equal component, `**` any number), and a variable holds the `/`-join of what its pieces stand for. The
  central theorem is that the compiled code means the same.
* **Routing.** Per-method lists of patterns, first match wins; the reference is "the first registration in the log
  that serves the request".
* **Population.** The symbol registry, dotted field paths, the setter statements the generator emits (as a small
  statement language with an interpreter), and the order in which they fill the request message. With the matcher this
  gives one end-to-end transcoding theorem.
* **Type names.** `super::` paths and extern paths in generated code.
* **Stateful layers.** The response body limiter, the retry policy with its request clone, the header rebuild, and
  the forwarding of headers into gRPC metadata.

## Layout

| file | models |
|---|---|
| `Text.dfy` | splitting, joining and searching text |
| `PathTemplate.dfy` | template syntax and bytecode types |
| `PathCompiler.dfy` | the compiler: specification functions and the loops that refine them |
| `TemplateSyntax.dfy` | printed templates, the parser round trip, what brace merging keeps |
| `MisreadTemplates.dfy` | texts that are read differently from what they look like |
| `PatternMatcher.dfy` | the stack machine and `route_matcher` |
| `Bytecode.dfy` | static stack check, simulation, code generation lemmas |
| `TemplateSemantics.dfy` | meaning of a template, compiler correctness, the `**` decision |
| `PathRoundTrip.dfy` | path normalisation, expansion, what captures remember |
| `Faithfulness.dfy` | the exact class of texts the compiled code is faithful to, path by path |
| `RouteOverlap.dfy`, `Router.dfy`, `Dispatch.dfy` | competing templates, the router, routes reached by expanded paths |
| `Registry.dfy`, `Setters.dfy`, `Transcoding.dfy` | message types, emitted setters, the end-to-end theorem |
| `ExternPaths.dfy`, `RelativeTypes.dfy` | `resolve_relative_type` |
| `Governance.dfy`, `Headers.dfy` | body limit, retries and error handling, header rebuilding |
| `Metadata.dfy`, `Annotators.dfy` | metadata forwarding, and the annotators in front of it |

Each loop of the source is a method with a loop, proved equal to a specification function; the theorems are lemmas
about those functions, so they hold of the methods. `Parse` is `None` where the compiler's unsigned brace depth would
underflow, so a theorem that requires `Parse(text).Some?` covers every text on which the compiler gets to its end,
grammatical or not.

## Where the code departs from the grammar or its comments

The model follows the code in each case, with the exact condition and a failing input.

* The verb is cut at the last colon of the text, wherever that colon stands (path_compiler.rs:13-27). `ParseRender`
  gives the exact condition under which the printed template is read back. `VariableBeforeTwoColons` covers the family
  of `/{uuid}:custom:custom`: after any segments, such a variable is compiled as a literal.
* `brace_depth` is unsigned and can underflow, and an unclosed brace drops what was buffered (path_compiler.rs:43-59).
  `MergeKeeps` says exactly when either happens, `BalancedKeeps` what to look for in the text; `OneBraceTooMany` (`/{a/b}}`) and `UnclosedBraceDropped` (`/a/{b`) are
  inputs.
* `tail_len` is always 0 (path_compiler.rs:159), so a `**` followed by a `*` or a literal matches no path at all
  (`NeverMatches`). `FaithfulExactly` gives, for all texts, the exact class on which "answered" means "can be cut":
  only `**` after a `**`, or a slash inside a literal or the verb, which no path can match anyway.
  `MiddleDeepRejected` is `/**/b` on `/b`.
* A `**` that matches no component still pushes an empty text. `CaptureFaithful` says exactly when the extra slash
  appears; `DeepMatchedNothing` is `/{name=foo/**}` on `/foo`, which captures `foo/`.
* The comment on the retry policy says that upstream errors are retried (governance.rs:45). In the assembled gateway the
  error layer below the policy has turned every error into a response first, so an error is retried exactly when the
  handler makes it a 502 or 503 (`ErrorRetriedExactly`), and the comment holds exactly of handlers that do so with every
  upstream error (`UpstreamRetriedExactly`). The default handler does it with `Unavailable` only, and with custom errors
  of those statuses (`DefaultErrorRetried`); `InternalNotRetried` is an upstream `Internal` error with three attempts.
* `clone_request` inserts header values one by one, so of a repeated header only the last value survives
  (`CloneExact`, `CloneLosesValue`); behind a header matcher this makes no difference, however often a request is cloned
  (`RetriesCarrySameHeaders`).
* `super::` paths always leave the service's module `<service>_gw` (generator.rs:91-92,508). The number of climbs is
  least unless the target lies inside that module, which takes a package named like it, whose own module has the same
  path (`ClimbsMinimal`, `ClimbsNotMinimal`); `ClimbExample` is service `S` of package `a` and type `.a.s_gw.T`.
* Extern paths come out of a hash map; with keys that are dotted prefixes of each other the answer depends on its
  order (`ExternOrderExactly`, `ExternOrderMatters`).
* A key without any character but dots is accepted (main.rs:30-32) and glues the Rust prefix to the first name
  (`ExternPathExactly`, `EmptyKeyGlues`: `extern_path==crate` makes `cratea::T` of `.a.T`).
* A body selector other than `*` is declared but the generated code then starts from a default message
  (generator.rs:342-356). `DecodedKeptExactly` says exactly when the unbound fields still read as in the decoded body;
  `SelectorDropsBody` is `/{id}` with the selector `data`, whose field `data` is lost.

## Model

| member | source | states |
|---|---|---|
| PathCompiler.MergeSegments | gateway-codegen/src/path_compiler.rs:29-60 | the loop with buffer and unsigned depth yields the merged segments of the raw ones, or nothing exactly where the depth would underflow |
| PathCompiler.EmitPieces | gateway-codegen/src/path_compiler.rs:86-112 | appends to code and pool exactly the code and literals of the pattern's pieces, one push per piece |
| PathCompiler.EmitVariable | gateway-codegen/src/path_compiler.rs:75-141 | a braced segment extends code and pool by its pattern, the join when it has several pieces and the capture of its own new variable |
| PathCompiler.EmitSegment | gateway-codegen/src/path_compiler.rs:62-152 | one merged segment extends code, pool and variable table by what the segment it stands for generates |
| PathCompiler.EmitSegments | gateway-codegen/src/path_compiler.rs:62-152 | code, pool, variable table and stack size after all segments are those of the parsed template |
| PathCompiler.Compile | gateway-codegen/src/path_compiler.rs:3-162 | for every text, grammatical or not: compiling is code generation on the template the text stands for, and there is no result exactly where the depth underflows |
| TemplateSyntax.MergeUndoesSplit | gateway-codegen/src/path_compiler.rs:29-60 | for every printed template the brace merge puts every segment together again and loses none |
| TemplateSyntax.ParseRender | gateway-codegen/src/path_compiler.rs:9-83 | a printed template is read back as itself, `{f}` as `{f=*}`, if and only if its last colon introduces its verb |
| MisreadTemplates.MergeExtended | gateway-codegen/src/path_compiler.rs:35-60 | with closed braces, a plain text behind the last raw segment stays behind the last merged segment and changes nothing else |
| MisreadTemplates.VariableBeforeTwoColons | gateway-codegen/src/path_compiler.rs:13-27 | after any printed segments, a printed variable followed by two colons is compiled as one literal segment, the rest being read as printed |
| MisreadTemplates.OneBraceTooMany | gateway-codegen/src/path_compiler.rs:43-47 | `/{a/b}}` makes the depth underflow |
| MisreadTemplates.UnclosedBraceDropped | gateway-codegen/src/path_compiler.rs:52-55 | `/a/{b` compiles to the segment `a` alone |
| MisreadTemplates.StrayBraceKept | gateway-codegen/src/path_compiler.rs:52-58 | a closing brace outside a variable is part of a literal, whatever the names: no underflow, nothing lost |
| MisreadTemplates.EmptyPatternIsLiteral | gateway-codegen/src/path_compiler.rs:78-112 | `{f=}` is a variable with one empty literal, unlike `{f}` |
| TemplateSyntax.MergeKeeps | gateway-codegen/src/path_compiler.rs:35-60 | for every text: no result iff the depth underflows; otherwise the merged segments hold a prefix of the non-empty raw ones in order, and all of them iff the depth is zero at the end |
| TemplateSyntax.DepthCounts | gateway-codegen/src/path_compiler.rs:35-60 | where no raw segment closes more braces than are open, the final depth is the opened minus the closed ones |
| TemplateSyntax.BalancedKeeps | gateway-codegen/src/path_compiler.rs:30-60 | a path in which no brace is closed early never underflows, and keeps all its raw segments iff it opens as many braces as it closes |
| TemplateSyntax.SpelledClosed | gateway-codegen/src/path_compiler.rs:43-59 | on every printed template the depth never underflows and ends at zero |
| PatternMatcher.RequestComponents | gateway-runtime/src/pattern.rs:29-63 | the normalised components with the verb taken off, or nothing when the verb is missing |
| PatternMatcher.ExecuteOp | gateway-runtime/src/pattern.rs:69-118 | one op moves stack, cursor and captures as the machine step says, and fails exactly where the step stops |
| PatternMatcher.RouteMatcher | gateway-runtime/src/pattern.rs:29-125 | the loop over the ops answers what the machine's whole execution answers |
| Bytecode.Simulate | gateway-runtime/src/pattern.rs:65-118 | code that passes the static stack check stops only because components do not fit, and otherwise is one greedy pass over the components followed by a replay of the joined slices |
| Bytecode.StackBound | gateway-runtime/src/pattern.rs:65-118 | after every prefix of checked code the stack holds at most one value per consuming op |
| Bytecode.GeneratedSafe | gateway-codegen/src/path_compiler.rs:62-161 | generated code passes the static stack check and captures every variable once and in order; its stack size is the number of consuming ops |
| Bytecode.CompiledSafe | gateway-runtime/src/pattern.rs:78-116 | for every text that compiles, every component list and every prefix of the code: the bad-pool-index, concat-underflow and capture-underflow exits are never taken and the stack stays within its size |
| Bytecode.ExecuteGenerated | gateway-runtime/src/pattern.rs:65-124 | executing a compiled template succeeds iff the greedy pass uses up pieces and components together, and then captures the joined slices, later duplicate names winning |
| TemplateSemantics.CompiledMeaning | gateway-runtime/src/pattern.rs:29-125 | compiler correctness, every text and path: an answer always comes from a cut of the components, a path with a cut is answered when only `**` follows a `**`, and under the grammar every cut gives the answer |
| Faithfulness.FaithfulExactly | gateway-codegen/src/path_compiler.rs:154-161 | for every text that compiles: "answered" means "its components can be cut" for all paths, if and only if nothing but `**` follows a `**` or a slash in a literal or the verb makes every path unfit |
| Faithfulness.ReachableFits | gateway-runtime/src/pattern.rs:30-63 | without such a slash some path does fit the template |
| Faithfulness.FittingReachable | gateway-runtime/src/pattern.rs:30-63 | with such a slash, or without any piece, no path fits |
| Faithfulness.NeverMatches | gateway-runtime/src/pattern.rs:72-97 | a template with a `*` or a literal behind a `**` answers no path |
| Faithfulness.MiddleDeepRejected | gateway-codegen/src/path_compiler.rs:159 | `/**/b` can be cut over `/b` but does not answer it |
| TemplateSemantics.OneDeepDecision | gateway-runtime/src/pattern.rs:69-97 | with one `**` and any tail length the greedy pass accepts iff the tail length is the number of later pieces and some cut exists |
| TemplateSemantics.DeepWildcardDecision | gateway-runtime/src/pattern.rs:69-122 | the same for any stack-safe op list with one `PushM`: no backtracking is needed, and a wrong tail length accepts nothing |
| PathRoundTrip.LeadingSlash | gateway-runtime/src/pattern.rs:30-38 | one more leading slash leaves the components alone iff the path is empty, has none yet, or is one slash |
| PathRoundTrip.LeadingSlashMatch | gateway-runtime/src/pattern.rs:29-38 | in that case no pattern's answer changes |
| PathRoundTrip.TrailingSlash | gateway-runtime/src/pattern.rs:30-38 | one more trailing slash leaves the components alone iff the stripped path is empty or does not end in a slash |
| PathRoundTrip.TrailingSlashMatch | gateway-runtime/src/pattern.rs:29-38 | in that case no pattern's answer changes |
| PathRoundTrip.ComponentsOfPath | gateway-runtime/src/pattern.rs:30-38 | a component list comes back from its path iff it is non-empty, slash-free and has no lost empty last component |
| PathRoundTrip.StripVerbExactly | gateway-runtime/src/pattern.rs:40-63 | a verb is taken off iff the last component is the remaining one, a colon and the verb |
| PathRoundTrip.ColonVerbNeverFound | gateway-runtime/src/pattern.rs:43-56 | a verb that contains a colon is found in no path |
| PathRoundTrip.VerbMatch | gateway-runtime/src/pattern.rs:40-63 | a template with a verb answers on a path what its verb-free form answers on the components in front of the verb, and nothing when there are none |
| PathRoundTrip.ExpandedComponents | gateway-runtime/src/pattern.rs:30-63 | the exact condition under which components put into a path, with or without a verb, come back |
| PathRoundTrip.PathFor | gateway-runtime/src/pattern.rs:30-63 | every non-empty slash-free list of components comes from some path, with any slash-free verb behind it or none |
| PathRoundTrip.ExpandMatch | gateway-codegen/src/path_compiler.rs:62-161 | expanding a grammatical template with fitting slash-free slices and matching the path gives exactly the captures of that binding |
| PathRoundTrip.CaptureFaithful | gateway-runtime/src/pattern.rs:89-113 | a captured value is the join of the contiguous run of path components at the variable's place, plus one slash exactly when a `**` behind other pieces matched nothing |
| Faithfulness.DeepMatchedNothing | gateway-runtime/src/pattern.rs:89-107 | `/{name=foo/**}` on `/foo` captures `foo/` |
| PathRoundTrip.CaptureDetermines | gateway-runtime/src/pattern.rs:98-113 | a captured value determines the components it was made of if none was empty |
| PathRoundTrip.CapturesAt | gateway-runtime/src/pattern.rs:108-113 | a variable holds the join of its own pieces' values unless a later variable has its name |
| PathRoundTrip.CapturesInjective | gateway-runtime/src/pattern.rs:65-124 | if every wildcard sits in a distinctly named variable, the components of a matched path can be recovered from the captures, so equal captures mean equal components |
| RouteOverlap.OverlapExactly | gateway-runtime/src/pattern.rs:29-125 | for any two texts that compile: some path is answered by both, if and only if a decision read off their pieces and verbs says so; equal verbs, a verb on one side only, different verbs, slashes in literals and pieces behind a `**` are all covered |
| RouteOverlap.SharedWithVerb | gateway-runtime/src/pattern.rs:40-97 | a template without a verb meets one with a verb iff their pieces agree and its last piece can take the colon and the verb as well |
| RouteOverlap.VerbsDisjoint | gateway-runtime/src/pattern.rs:40-56 | patterns with different non-empty verbs share no path |
| Router.Router.constructor | gateway-runtime/src/router.rs:93-97 | an empty table for an empty log |
| Router.Router.RouteWithMetadata | gateway-runtime/src/router.rs:154-172 | the registration is the newest of the log and the per-method table still holds exactly each method's registrations in order |
| Router.Router.Route | gateway-runtime/src/router.rs:139-144 | the same with default metadata |
| Router.Router.MatchRequest | gateway-runtime/src/router.rs:110-123 | after any sequence of registrations: the service, captures and metadata of the first registration of that method whose pattern matches, or nothing iff none does |
| Router.FirstAnswers | gateway-runtime/src/router.rs:110-123 | the reference in terms of methods and patterns alone: the answer is the own one of the first registration of that method whose pattern matches, and there is none iff no such pattern does |
| Router.FirstMatchAt | gateway-runtime/src/router.rs:116-122 | no answer iff no registration serves the request; an answer is that of the least serving index |
| Router.RegisterOne | gateway-runtime/src/router.rs:163-171 | a new registration changes no answered request and answers an unanswered one iff it serves it itself |
| Router.FirstOfMethod | gateway-runtime/src/router.rs:115-121 | looking only at the method's own list finds the first match of the whole log |
| Router.ReorderingSafe | gateway-runtime/src/router.rs:110-123 | any permutation of the log that keeps conflicting registrations in order answers every request alike |
| Router.DisjointRoutesCommute | gateway-runtime/src/router.rs:110-123 | conflict-free registrations, those of different methods included, may be made in any order |
| Dispatch.ApartNeverBoth | gateway-runtime/src/router.rs:116-120 | templates that do not compete never both serve a path |
| Dispatch.ExpandedPathReachesRoute | gateway-runtime/src/router.rs:110-123 | a path expanded from the k-th template reaches the k-th service with the binding's captures when no earlier route of the method competes with it |
| Registry.SymbolRegistry.constructor | gateway-codegen/src/descriptor_processor.rs:67-75 | the table is that of all files' messages, inserted in order |
| Registry.SymbolRegistry.ProcessFile | gateway-codegen/src/descriptor_processor.rs:77-97 | one file adds its messages under its package's scope |
| Registry.SymbolRegistry.ProcessMessages | gateway-codegen/src/descriptor_processor.rs:88-96 | sibling messages are added in order, each with all that is nested in it |
| Registry.SymbolRegistry.ProcessMessage | gateway-codegen/src/descriptor_processor.rs:99-146 | one message is added before what is nested in it, with its own fields by name |
| Registry.SymbolRegistry.ResolveField | gateway-codegen/src/descriptor_processor.rs:148-172 | the loop over the parts agrees with recursive resolution for every registry, root and path |
| Registry.InsertedIffDeclared | gateway-codegen/src/descriptor_processor.rs:99-146 | what is inserted is exactly what some file declares at some nesting depth |
| Registry.DeclaresExactly | gateway-codegen/src/descriptor_processor.rs:78-108 | a message is declared under exactly one kind of name: a dot, the package if there is one, and the names on its nesting path, joined by dots |
| Registry.FieldsHeld | gateway-codegen/src/descriptor_processor.rs:110-127 | the stored entry of each field, the last of its name, has that field's own label, type name and type, each by itself, and no other name has an entry |
| Registry.LastInsertionStays | gateway-codegen/src/descriptor_processor.rs:129-136 | of messages with one full name the one processed last stays |
| Registry.RegistryComplete | gateway-codegen/src/descriptor_processor.rs:67-146 | when equal names mean equal fields, every message at any depth is stored under its dotted name, each field with its own label, type name and type, and nothing else is stored |
| Registry.RegistryOrderFree | gateway-codegen/src/generator.rs:470-472 | then the registry does not depend on the order in which the hash map yields the files |
| Registry.ResolveComposes | gateway-codegen/src/descriptor_processor.rs:148-172 | resolving `p.q` is resolving `q` from the type `p` resolves to, and fails when `p` fails or is untyped |
| Setters.GenerateSetter | gateway-codegen/src/generator.rs:127-174 | the loop emits the statement for the parts of the path: a chain of `get_or_insert_with` ending in an assignment or a push, of bytes or parsed text |
| Setters.SetterSteps | gateway-codegen/src/generator.rs:154-172 | the emitted statement reaches exactly the parts of the path, pushes iff repeated, takes raw bytes iff of bytes type |
| Setters.EmittedSetter | gateway-codegen/src/descriptor_processor.rs:320-350 | for a variable whose path resolves, the emitted statement pushes iff the field has label 3 and takes raw bytes iff it has type 12 |
| Setters.ReadUpdated | gateway-codegen/src/generator.rs:127-174 | after the update the field at the path reads the new value, or its old values and the new one |
| Setters.ReadElsewhere | gateway-codegen/src/generator.rs:127-174 | every field at a path unrelated by prefix reads as before, siblings in a created submessage included |
| Setters.UpdateConforms | gateway-codegen/src/generator.rs:127-174 | on a message of its type the setter succeeds iff the path leads through singular message fields to a field that is none, none of them optional scalars or in a oneof, and the message keeps its type |
| Setters.RunParamReads | gateway-codegen/src/generator.rs:315-329 | one captured parameter: its field receives its text, every unrelated field keeps its value |
| Setters.SetterEffect | gateway-codegen/src/generator.rs:127-174 | after a captured parameter a label-3 field reads its old values and the new one, any other field the new one, which is the raw bytes for type 12 and the parsed text otherwise |
| Setters.DefaultFields | gateway-codegen/src/generator.rs:353-355 | in a default message a label-3 field is empty, a type-11 field absent, any other its zero |
| Setters.PopulateReads | gateway-codegen/src/generator.rs:375-386 | all setters in order, on pairwise unrelated paths: every bound field receives its own text, every other keeps its value |
| Transcoding.BoundCapture | gateway-runtime/src/pattern.rs:108-117 | with unrelated field paths a variable is captured with exactly its own segment's text |
| Transcoding.Transcode | gateway-codegen/src/generator.rs:315-386 | end to end: expand, match, populate; every bound field receives its own slices' text on top of what the emitted code starts from, every unrelated field keeps its value |
| Transcoding.DecodedKeptExactly | gateway-codegen/src/generator.rs:342-356 | every unbound field of the request reads as in the decoded body, if and only if the selector is `*` or the body has there what a default message has |
| Transcoding.SelectorDropsBody | gateway-codegen/src/generator.rs:351-353 | the selector `data` on `/{id}` loses what the body said about `data` |
| Transcoding.TranscodeThroughRouter | gateway-runtime/src/router.rs:110-123 | the same through the router: the expanded request is answered with its own route's service and metadata, and its setters deliver the binding's texts |
| RelativeTypes.CountCommon | gateway-codegen/src/generator.rs:82-89 | the counting loop finds the longest common prefix |
| RelativeTypes.SpellPath | gateway-codegen/src/generator.rs:93-105 | the two loops emit the climbs, then the remaining names |
| RelativeTypes.RelativeSteps | gateway-codegen/src/generator.rs:76-107 | from any service module of the package the emitted path leads to the target's dotted name |
| RelativeTypes.StepsReachTarget | gateway-codegen/src/generator.rs:91-105 | following the steps from package and service reaches exactly the target |
| RelativeTypes.PartsOfJoin | gateway-codegen/src/generator.rs:76-80 | dotted names fall apart into the names, and no package into none |
| RelativeTypes.ClimbsNeeded | gateway-codegen/src/generator.rs:91-92 | whatever its steps, a path climbs out of all that the target does not lie in |
| RelativeTypes.ClimbsMinimal | gateway-codegen/src/generator.rs:91-92 | from the service's module, named in snake case with `_gw`, no path of whatever steps reaches the target with fewer climbs than the emitted one has, if and only if the target does not lie inside that module |
| RelativeTypes.ClimbsNotMinimal | gateway-codegen/src/generator.rs:91-92 | a type of a package named like the service's module needs no climb, and the emitted path has one |
| RelativeTypes.ClimbExample | gateway-codegen/src/generator.rs:506-509 | service `S` of package `a` and type `.a.s_gw.T` |
| ExternPaths.ExternOrderFree | gateway-codegen/src/generator.rs:42-44 | if no extern key is a dotted prefix of another, the hash order does not matter |
| ExternPaths.ExternOrderExactly | gateway-codegen/src/generator.rs:42-44 | for one name no permutation of the entries changes the choice if and only if all entries that apply are the same |
| ExternPaths.ExternOrderMatters | gateway-codegen/src/generator.rs:42-44 | a concrete pair of keys for which the order decides |
| ExternPaths.AppliesExactly | gateway-codegen/src/generator.rs:42-44 | a key applies to exactly the names whose dotted parts start with all of its own: `.google.protobuf` does not cover `.google.protobuf_custom.T` |
| ExternPaths.FoundFirst | gateway-codegen/src/generator.rs:42-44 | the entry that is used is the first such one, and there is none iff no key's parts lead the name |
| ExternPaths.ResolvedNames | gateway-codegen/src/generator.rs:18-27 | a resolved name is the `::`-path of its dotted parts behind the leading dots |
| ExternPaths.ExternNeverFallsThrough | gateway-codegen/src/generator.rs:52-69 | an entry that applies is still a prefix once dots are trimmed, so the extern branch always answers |
| ExternPaths.ExternPathExactly | gateway-codegen/src/generator.rs:52-68 | the key itself gives the Rust prefix; a name below it gives the prefix, `::` and the remaining names, if and only if the key has a character that is not a dot |
| ExternPaths.EmptyKeyGlues | gateway-codegen/src/main.rs:30-32 | the empty key with `crate` makes `cratea::T` of `.a.T` |
| RelativeTypes.ResolveRelativeType | gateway-codegen/src/generator.rs:36-108 | below the first extern key whose dotted parts lead the name: its Rust prefix and the remaining names; without such a key, a name without leading dot as it is, any other by steps that lead from any module of the package to the type |
| Governance.LimitedBody.constructor | gateway-runtime/src/layers/governance.rs:169-172 | nothing delivered, the whole limit remaining |
| Governance.LimitedBody.PollFrame | gateway-runtime/src/layers/governance.rs:198-218 | each poll answers and counts as its data demands, and in every reachable state the bytes delivered and the bytes remaining are the limit together |
| Governance.LimitedAt | gateway-runtime/src/layers/governance.rs:203-217 | poll by poll, also after an error: the inner answer unless it is data larger than what is left |
| Governance.FitsExactly | gateway-runtime/src/layers/governance.rs:203-217 | the output is the inner stream iff all its data fits the limit |
| Governance.FirstExcess | gateway-runtime/src/layers/governance.rs:206-211 | otherwise it is the inner stream up to the first frame past the limit, then an error |
| Governance.SomeExcess | gateway-runtime/src/layers/governance.rs:206-211 | such a frame exists whenever the data exceeds the limit |
| Governance.PayloadFits | gateway-runtime/src/layers/governance.rs:203-217 | in terms of the bytes themselves: the output is the inner stream iff there are no more bytes than the limit, and never delivers more |
| Governance.RetryPolicy.constructor | gateway-runtime/src/layers/governance.rs:53-57 | as many attempts remain as were configured |
| Governance.RetryPolicy.Retry | gateway-runtime/src/layers/governance.rs:63-90 | retries iff attempts remain and the result is 502, 503 or an upstream error, each retry costing one attempt |
| Governance.FinalCall | gateway-runtime/src/layers/governance.rs:68-89 | the first call whose outcome is not retryable, or the one after all attempts |
| Governance.Drive | gateway-runtime/src/layers/governance.rs:63-90 | the service is called once more than the index of the final call, and its outcome is returned |
| Governance.AssembledRun | gateway-runtime/src/layers/error.rs:65-87 | every run ends in a response after nothing but 502 and 503, for all outcomes of the service, if and only if the error layer has a handler |
| Governance.CallsExactly | gateway-runtime/src/layers/governance.rs:63-90 | for responses and errors alike: each call before the last was a 502 or 503 or an error the handler makes one, the last is not unless the attempts are used up, and the answer is its own response or its error's status |
| Governance.ErrorRetriedExactly | gateway-runtime/src/layers/error.rs:65-87 | with attempts left, an error the service answers with is retried iff the installed handler makes it a 502 or 503 |
| Governance.UpstreamRetriedExactly | gateway-runtime/src/layers/governance.rs:42-46 | every upstream error is retried while attempts are left, if and only if no handler hides it or the handler makes every upstream code a 502 or 503 |
| Governance.DefaultErrorRetried | gateway-runtime/src/defaults.rs:26-34 | with the default handler exactly upstream `Unavailable` and custom 502 and 503 errors are retried |
| Governance.InternalNotRetried | gateway-runtime/src/errors.rs:102-122 | upstream `Internal` errors, three attempts, default handler: no retry, where the policy alone makes three |
| Governance.Gateway.constructor | gateway-runtime/src/gateway.rs:174-193 | a new gateway has the default error handler and no retries |
| Governance.Gateway.WithErrorHandler | gateway-runtime/src/gateway.rs:196-202 | the handler is replaced, so there still is one |
| Governance.Gateway.WithGovernance | gateway-runtime/src/gateway.rs:290-293 | the retry count is set, the handler stays |
| Governance.Gateway.Serve | gateway-runtime/src/gateway.rs:336-375 | on any gateway the builder can make: one call more than 502, 503 and errors made one of them came before, within the attempts; the answer is the last call's own response, or its error's status; no error reaches the policy |
| Headers.RebuildHeaders | gateway-runtime/src/layers/headers.rs:64-74 | the loop yields the map rebuilt by the matcher, for requests and responses |
| Headers.EntryFieldsAt | gateway-runtime/src/layers/headers.rs:66 | iteration yields every value of a name, in order |
| Headers.CloneHeaders | gateway-runtime/src/layers/governance.rs:97-106 | the clone's header loop yields the map rebuilt without renaming |
| Headers.CloneKeepsLast | gateway-runtime/src/layers/governance.rs:102-104 | a clone keeps names, order and last values; cloning is idempotent |
| Headers.CloneExact | gateway-runtime/src/layers/governance.rs:102-104 | a clone has the original's headers iff no header has several values |
| Headers.CloneLosesValue | gateway-runtime/src/layers/governance.rs:102-104 | of a header with the values 1 and 2 the clone has 2 |
| Headers.ClonesKeepLast | gateway-runtime/src/layers/governance.rs:92-107 | every clone of clones holds the last value of each header |
| Headers.RetriesCarrySameHeaders | gateway-runtime/src/layers/headers.rs:64-74 | behind any header matcher every retry, a clone of clones, carries exactly the headers of the first attempt |
| Headers.RebuiltLookup | gateway-runtime/src/layers/headers.rs:64-74 | after a rebuild a name holds the one last value renamed to it, and is absent if there is none |
| Metadata.MetadataMap.constructor | gateway-runtime/src/metadata.rs:75 | the empty map |
| Metadata.MetadataMap.InsertParsed | gateway-runtime/src/metadata.rs:129-142 | a binary key takes any value, another key only a valid one; an invalid key takes none |
| Metadata.MetadataMap.ForwardOne | gateway-runtime/src/metadata.rs:83-142 | a header that goes to a key is stored there, one that goes to none changes nothing |
| Metadata.ForwardKeyExactly | gateway-runtime/src/metadata.rs:83-142 | a header goes to a key iff it is none of the eleven transport names, equals a configured name or starts with a configured prefix, the key is its own name or the name behind `x-` as its kind demands, and the key can hold the value |
| Metadata.PrefixedWelcome | gateway-runtime/src/metadata.rs:107-110 | whatever follows a configured prefix is welcome |
| Metadata.SameIgnoringCaseExactly | gateway-runtime/src/metadata.rs:87-106 | equal ignoring case means equal length and, letter by letter, the same or the other case |
| Metadata.LastForwardedExactly | gateway-runtime/src/metadata.rs:83-143 | of the headers that go to a key the last one's value stays |
| Metadata.MetadataMap.Forward | gateway-runtime/src/metadata.rs:75-160 | every final key holds the extension map's last value, else the last accepted header renamed to it, else what it held before |
| Metadata.RenameStaysUnrestricted | gateway-runtime/src/metadata.rs:120-127 | renaming makes no restricted transport name out of another header |
| Metadata.NeverRestricted | gateway-runtime/src/metadata.rs:83-143 | no header sequence and no configuration puts a restricted transport name into the metadata |
| Metadata.TransportNeverForwarded | gateway-runtime/src/metadata.rs:87-100 | a header with one of the eleven transport names, in whatever case, is not forwarded |
| Annotators.Annotate | gateway-runtime/src/layers/metadata.rs:71-97 | the loops over annotators and items leave the extension map that absorbing their answers one by one gives |
| Annotators.FirstAnswerKept | gateway-runtime/src/layers/metadata.rs:74-96 | without an extension map the first answer that is not empty becomes it as a whole, repeated values included |
| Annotators.LastAnnotatorWins | gateway-runtime/src/layers/metadata.rs:71-97 | each key of the extension map holds the last value of the last annotator that set it, else what it held before |
| Annotators.AnnotatorsTakePrecedence | gateway-runtime/src/metadata.rs:145-159 | through forwarding too: the last annotator's value, else an earlier extension's, else the last accepted header's, else what the metadata held |

## Left out

- Release builds: where the unsigned brace depth underflows the model has no result; the wrapped-around depth of a build without overflow checks is not modelled.
- Text is a sequence of characters, not UTF-8 bytes; `to_lowercase` is ASCII lower-casing.
- Pool and variable indexes are unbounded; their truncation to 32 bits is not modelled.
- Variables inside variables: the template syntax excludes them by type; texts that nest braces are still covered by the theorems over all texts, where such a variable's inner braces are part of names and literals.
- Transcoding.Transcode: percent decoding of captured values, query parameters and `response_body` are not part of this model; the expanded path is the one the gateway hands to the router.
- Setters.PopulateReads: map fields and repeated fields of messages are not settable, and which fields are optional scalars or members of a oneof is a parameter; a setter on any of these does not typecheck in the generated code. `parse().unwrap_or_default()`, `as_bytes` and field defaults are parameters.
- Snake-casing of field names and keyword escaping: taken as the identity; the snake case of a service name is a parameter.
- ExternPaths.ExternPathExactly: a path as text; the syntax check of the result, which turns an ill-formed path into a compile error, is not part of this model.
- RelativeTypes.RelativeSteps: reaches the dotted name of the target; the lower-casing of nested message modules done by the message code generator is not part of this model.
- Decoding of the body, codecs and multipart parsing: the decoded message is a parameter.
- Governance.Drive: the retry loop of the tower library, as its documentation describes it; the outcome of each call is a parameter and cloning always succeeds. Asynchronous polling, wakers, trailers' contents and the request size check are left out.
- Headers.RebuildHeaders: iteration over a header map is in order of first insertion with the values of a name together; the matcher stands for itself together with the validity test of the header library.
- Metadata.MetadataMap.Forward: the validity tests of the metadata library are parameters; `grpc_timeout` and the default matchers and annotators are left out.
- Annotators.Annotate: an annotator is a function of the extension map; the rest of the request, which no annotator changes, is fixed.
- Comments, documentation strings, file names, service and method definitions, token streams and file output of the generator.
- Authentication, metrics, tracing, compression, CORS, timeouts, rate limits, health checks and shutdown.
