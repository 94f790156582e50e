# gf HTTP router core, modelled in Dafny

This project models the route table of the gf web server's `ghttp.Server`
(`g/net/ghttp/http_server_router.go`). It covers registration (setHandler)
and resolution (searchHandler).

- **Registration.** A pattern of the form `[METHOD:]path[@domain]` is parsed
  with two regular expressions (parsePatternForBindHandler).
- **Exact table.** The route is written into the exact table (handlerMap) under
  one key per configured method, or under the key of its own method. A key is
  `UPPER(method):pattern@lower(domain)` (handlerKey).
- **Pattern tree.** When the uri contains `/:` or `/*` (isUriHasRule), the route
  also goes into its domain's pattern tree (handlerTree). There it is spliced
  into a leaf list ordered by priority (compareHandlerItemPriority). Every
  `:name` and `*name` segment shares one tree edge.
- **Resolution.** searchHandler first tries the exact keys of the default
  domain and of the request host, port stripped. It then descends each
  domain's tree, collecting leaf lists on the way. It tries the lists from the
  deepest back, each front to back. A route matches when its method fits and
  the path matches the regular expression built by patternToRegRule; its
  captures are then bound to the parameter names.

Modules:

| module | file | contents |
|---|---|---|
| `Options` | `options.dfy` | `Option`, `Result` |
| `Strings` | `strings.dfy` | Go's `strings.Split`, `Index`, `ToUpper`/`ToLower`, `EqualFold`; character classes |
| `Entities` | `entities.dfy` | `HandlerItem`, and `Config` for the default domain, the "every method" sentinel and the method set |
| `Pattern` | `pattern.dfy` | parsePatternForBindHandler, handlerKey, isUriHasRule |
| `Priority` | `priority.dfy` | compareHandlerItemPriority; the leaf-list insertion loop |
| `RegRule` | `regrule.dfy` | patternToRegRule, as tokens and as regex text; a matcher with the semantics of Go's regexp for these rules; parameter binding |
| `Tree` | `tree.dfy` | the tree as a value, the registration walk, the search descent |
| `Router` | `router.dfy` | the pure specification `Register`/`Resolve` and its properties; class `Server` whose methods are proved equal to it |
| `Scenarios` | `scenarios.dfy` | worked examples on concrete patterns |

The regular expressions are written out as scanners. They follow Go's
semantics: leftmost match, greedy groups, `.` not matching a newline, and
`\w` as ASCII.

### Behaviour of the code worth knowing

- **The method prefix stays in the uri.** parsePatternForBindHandler
  initialises `uri` from the whole pattern and replaces it only when the
  domain expression matches. So `METHOD:path` without `@domain` keeps the
  whole pattern as its uri. setHandler builds the exact key from the raw
  pattern too.
  - So after registering `GET:/a`, a GET of `/a` is never found
    (`Scenarios.MethodPrefixNeverFound`).
  - With an `@domain` suffix the method is removed
    (`Pattern.ParseMethodPathDomain`).
- **Priority counts empty pieces.** setHandler sets the priority to
  `len(strings.Split(uri[1:], "/"))`, which counts empty pieces too.
  - `/a//:id` gets priority 3 and `/a/:id` gets 2, although both live at the
    same node (`Scenarios.EmptyPieceCounts`).
  - `/a/*rest` gets 2.
- **Dynamism is a substring test.** isUriHasRule calls a uri dynamic when it
  contains `/:` or `/*` anywhere and is longer than one character. So a
  first segment counts only when the uri starts with `/`
  (`Pattern.IsUriHasRuleBySegments`).
- **A static route with a domain is not found at its own path.** The exact
  keys are built from the raw pattern, domain suffix included, so
  `/fixed@example.com` is stored under `GET:/fixed@example.com@example.com`.
  A GET of `/fixed` from `example.com` looks up `GET:/fixed@example.com` and
  finds nothing (`Scenarios.DomainStaticNeverFound`). Only a request whose
  path itself ends in `@example.com` reaches it: a GET of
  `/fixed@example.com` from `example.com` builds exactly the stored key
  (`Scenarios.DomainStaticFoundAtRawPath`). A dynamic route with a domain is
  found through the tree.
- **An unnamed parameter shifts the binding.** patternToRegRule adds a
  capture group for every `:` segment, but an empty name adds nothing to
  the names list. Names are then bound to captures by position. So `/:/:id`
  has two captures and the single name `id`, and `id` is bound to the
  first capture (`Scenarios.EmptyNameShiftsBinding`).
- **A comma in a parameter name turns binding off.** The names string is
  split on `,` before binding, but a `:` segment adds one capture group
  whatever its name holds. So `/:a,b` has one capture and the two names `a`
  and `b`; the match (whole match plus one group) is not longer than the
  names, and no parameter is bound (`Scenarios.CommaNameBindsNothing`).
- **The search descent never backtracks.** At each request segment the
  descent follows the segment's own edge when there is one, and takes the
  `/` edge only when there is not; it never returns to try the other branch.
  With `/a/b/:x/y` and `/a/:id/edit` registered, a request for `/a/b/edit`
  follows `b`, finds no `edit` edge below it and collects no list, although
  the rule of `/a/:id/edit` would match it (`Scenarios.DescentDoesNotBacktrack`,
  over the tree built by `Scenarios.BranchTreeBuilt`).

## Model

| member | source | states |
|---|---|---|
| Pattern.ParsePattern | g/net/ghttp/http_server_router.go:18-34 | parsing fails exactly for the empty pattern; otherwise the uri is non-empty |
| Pattern.ParseMethodPathDomain | g/net/ghttp/http_server_router.go:22-29 | `m:p@d`, with a letter method, a newline-free path and a `[\w.-]` domain, parses to domain d, method m, uri p |
| Pattern.ParseMethodWithoutDomain | g/net/ghttp/http_server_router.go:19-26 | `m:p` with no `@` gets the default domain and method m, but keeps the whole `m:p` as its uri |
| Pattern.ParsePlainPath | g/net/ghttp/http_server_router.go:19-30 | a path with no `@` and no letter-colon parses to the default domain and default method, uri unchanged |
| Pattern.ParsePathDomain | g/net/ghttp/http_server_router.go:19-30 | `p@d` without a method, with a newline-free path that has no letter before a `:` and a `[\w.-]` domain, parses to domain d, the default method and uri p |
| Pattern.MethodPrefix | g/net/ghttp/http_server_router.go:22-25 | the method expression splits `m:rest` into its two groups |
| Pattern.DomainSuffix | g/net/ghttp/http_server_router.go:26-29 | the domain expression splits `p@d` at the last `@` into path and domain |
| Pattern.NoAtNoDomain | g/net/ghttp/http_server_router.go:26 | without `@` the domain expression does not match |
| Pattern.NoLetterColonNoMethod | g/net/ghttp/http_server_router.go:22 | without a letter followed by `:` the method expression does not match |
| Pattern.FindMethod | g/net/ghttp/http_server_router.go:22 | a match of `([a-zA-Z]+):(.+)` has two non-empty groups |
| Pattern.LastDomainSep | g/net/ghttp/http_server_router.go:26 | the greedy `(.+)@` stops at the last `@` followed by a domain character, and none lies after it |
| Pattern.HandlerKeyIgnoresCase | g/net/ghttp/http_server_router.go:238-240 | keys do not depend on the case of method or domain |
| Pattern.HandlerKeyDistinguishes | g/net/ghttp/http_server_router.go:238-240 | equal keys (method without `:`, domain without `@`) mean case-equal methods, the same pattern and case-equal domains |
| Pattern.HandlerKeyEqualIff | g/net/ghttp/http_server_router.go:238-240 | two keys are equal if and only if the methods fold equal, the patterns are equal and the domains fold equal |
| Pattern.IsUriHasRuleBySegments | g/net/ghttp/http_server_router.go:230-235 | a uri is dynamic exactly when a piece of `uri[1:]` starts with `:` or `*`, the first piece counting only after a leading `/` |
| Pattern.MarkedSlashInLaterSegment | g/net/ghttp/http_server_router.go:231 | a `/:` or `/*` in a string is exactly a later piece that starts with `:` or `*` |
| Priority.OutranksIsStrictWeakOrder | g/net/ghttp/http_server_router.go:109-120 | the comparator is the strict lexicographic order on (priority, count of `/:`): irreflexive, asymmetric, transitive, with transitive incomparability |
| Priority.FirstOutranked | g/net/ghttp/http_server_router.go:97-103 | the walk stops at the first entry the new route outranks, having outranked none before it |
| Priority.InsertByPriority | g/net/ghttp/http_server_router.go:97-103 | the leaf list gains exactly the new route: one entry more, same multiset plus the route |
| Priority.InsertIntoLeaf | g/net/ghttp/http_server_router.go:97-103 | the insertion loop (InsertBefore or PushBack) returns the list of InsertByPriority |
| Priority.InsertPlacement | g/net/ghttp/http_server_router.go:97-103 | in a sorted list the route lands after exactly the entries it does not outrank, and removing it gives the old list |
| Priority.InsertKeepsSorted | g/net/ghttp/http_server_router.go:97-103 | insertion keeps a leaf list sorted by rank |
| Priority.InsertKeepsArrivalOrder | g/net/ghttp/http_server_router.go:97-103 | of two routes of equal rank (neither outranks the other), the one inserted second lands behind the first in a sorted list, since the walk only stops at an entry the new route strictly outranks |
| RegRule.PatternToRegRule | g/net/ghttp/http_server_router.go:197-227 | the rule is anchored exactly when the uri has at least 2 characters; a shorter uri comes back unchanged with no names |
| RegRule.PatternToRegRuleShape | g/net/ghttp/http_server_router.go:201-226 | the rule is the segment tokens up to and including the first wildcard, closed with `$` when there is none; names are the parameter names joined by commas; a wildcard can only be last |
| RegRule.RegexTextShape | g/net/ghttp/http_server_router.go:201-225 | the regex text starts with `^` and ends with `$` exactly when no wildcard segment was met |
| RegRule.CompileSegmentsIs | g/net/ghttp/http_server_router.go:203-225 | the loop with any accumulators produces the tokens up to the first wildcard and the folded names |
| RegRule.FoldNamesFromEmpty | g/net/ghttp/http_server_router.go:210-219 | the names accumulator is the comma-join of the names, leading empty names dropped |
| RegRule.MatchInstantiate | g/net/ghttp/http_server_router.go:173 | any path built from a rule and fitting captures matches with exactly those captures |
| RegRule.MatchSound | g/net/ghttp/http_server_router.go:173-176 | a match yields fitting captures that rebuild the whole path, or for a wildcard rule a prefix of it |
| RegRule.BindAllPositional | g/net/ghttp/http_server_router.go:179-181 | with distinct names, name i is bound to capture i and nothing else is bound |
| RegRule.BindAllLastWins | g/net/ghttp/http_server_router.go:179-181 | a name is bound to the capture at its last occurrence, so a repeated name takes the later capture |
| RegRule.CompiledRuleBinding | g/net/ghttp/http_server_router.go:172-183 | on a match with non-empty, comma-free, distinct names there is one capture per name, each name is bound to its capture, and nothing else is bound |
| RegRule.FitsCount | g/net/ghttp/http_server_router.go:178 | fitting captures number the parameter tokens |
| Strings.Split | g/net/ghttp/http_server_router.go:66 | the pieces contain no separator and join back to the string |
| Strings.SplitOfJoin | g/net/ghttp/http_server_router.go:66 | splitting a join of separator-free pieces gives the pieces back |
| Strings.EqualFoldIffSameUpper | g/net/ghttp/http_server_router.go:171 | two strings fold equal exactly when their upper-cased forms are equal |
| Tree.DescentPath | g/net/ghttp/http_server_router.go:68-85 | the path has one edge per non-empty segment, in order, and edge i is the edge of the i-th non-empty segment: `/` for a `:` or `*` segment, the segment itself otherwise |
| Tree.EdgesOfPath | g/net/ghttp/http_server_router.go:68-85 | every edge is non-empty and is either the shared `/` edge or one of the segments, starting with neither `:` nor `*` |
| Tree.SegmentCount | g/net/ghttp/http_server_router.go:66-67 | the priority is at least 1 and at least the depth of the node |
| Tree.WalkSegments | g/net/ghttp/http_server_router.go:66-85 | the registration walk computes the node path UriPath |
| Tree.LeafAtPut | g/net/ghttp/http_server_router.go:79-93 | after setting a leaf, the node at the path holds the new list and every other leaf is unchanged |
| Tree.EmptyHasNoLeaf | g/net/ghttp/http_server_router.go:62-64 | a fresh tree holds no leaf |
| Tree.CollectLists | g/net/ghttp/http_server_router.go:143-165 | the descent loop collects the lists of CollectFrom |
| Tree.CollectedAreLeaves | g/net/ghttp/http_server_router.go:142-168 | every collected list is the leaf of a node of the tree, and the nodes get no shallower along the collection |
| Router.Register | g/net/ghttp/http_server_router.go:37-106 | registration fails exactly for the empty pattern |
| Router.RegisterExact | g/net/ghttp/http_server_router.go:42-54 | the keys written are one per configured method for the sentinel, else the one key, all from the raw pattern; they hold the stamped route and other keys are unchanged |
| Router.RegisterStatic | g/net/ghttp/http_server_router.go:59 | a non-dynamic uri leaves every tree unchanged |
| Router.RegisterDynamic | g/net/ghttp/http_server_router.go:59-104 | a dynamic uri gets priority SegmentCount; the leaf at its node in its domain's tree becomes the old list with the route inserted by rank; every other leaf is unchanged |
| Router.RegisterIntoEmpty | g/net/ghttp/http_server_router.go:42-104 | a dynamic pattern registered into an empty table yields one tree, for its domain, whose only leaf holds the stamped route at the uri's node, and exactly the pattern's exact keys |
| Router.NoRoutesValid | g/net/ghttp/http_server_router.go:62-64 | the empty table satisfies the tree invariant |
| Router.RegisterKeepsValid | g/net/ghttp/http_server_router.go:59-104 | registration preserves the tree invariant: every leaf list is non-empty and sorted, and holds dynamic routes of its own domain stored at their own node with their own priority |
| Router.InsertedLeafValid | g/net/ghttp/http_server_router.go:97-103 | inserting a route that belongs at a node into that node's valid list keeps it valid |
| Router.RegisterTwice | g/net/ghttp/http_server_router.go:48-54 | registering the same dynamic pattern twice keeps both routes in the leaf, first before second, while every exact key holds only the second |
| Router.HostName | g/net/ghttp/http_server_router.go:125 | the host name is the prefix of the Host header up to the first `:` |
| Router.ExactLookupIsFirst | g/net/ghttp/http_server_router.go:127-132 | the exact phase returns the entry of the first domain whose key is present, and nothing exactly when none is |
| Router.ResolveExactFirst | g/net/ghttp/http_server_router.go:125-137 | a default-domain exact entry shadows a host entry, which shadows every dynamic route; the dynamic phase runs only when both keys are absent |
| Router.FirstInListIsFirst | g/net/ghttp/http_server_router.go:169-189 | within a leaf list the result is the first route that accepts, and none exactly when no route accepts |
| Router.FirstInListsIsFirst | g/net/ghttp/http_server_router.go:168-190 | over the collected lists the result is the first accepting route, deepest list first and each list front to back; none exactly when none accepts |
| Router.NoneAcceptsSplit | g/net/ghttp/http_server_router.go:168 | no route of the lists accepts exactly when none of the earlier lists' routes and none of the last list's routes accept |
| Router.DynamicLookupSound | g/net/ghttp/http_server_router.go:137-191 | a dynamic result is a route held in a leaf of a tried domain's tree, and it accepts the request with the returned parameters |
| Router.DynamicLookupIsFirst | g/net/ghttp/http_server_router.go:137-193 | the dynamic phase finds nothing exactly when no route collected in any tried domain's tree accepts; otherwise its result is the first match in the first domain, in order (default before host), whose collected lists hold an accepting route |
| Router.ResolveSound | g/net/ghttp/http_server_router.go:123-194 | a result is an exact entry under a tried domain's key (no parameters), or an accepting dynamic route held at its own node in a tried domain's tree |
| Router.ResolveNoneIff | g/net/ghttp/http_server_router.go:123-194 | a request finds nothing exactly when neither the default domain nor the host has an exact key for the path and neither domain's tree holds an accepting route along it |
| Router.AcceptInstantiated | g/net/ghttp/http_server_router.go:171-186 | a stored route with a fitting method accepts every path built from its rule, binding each parameter name to its capture |
| Router.ScanLists | g/net/ghttp/http_server_router.go:168-190 | the two nested loops return the result of FirstInLists |
| Router.StoreExactStep | g/net/ghttp/http_server_router.go:49-51 | writing one more key is one more map update |
| Router.Server.constructor | g/net/ghttp/http_server_router.go:62-64 | a new server has empty tables, which satisfy the invariant |
| Router.Server.SetHandler | g/net/ghttp/http_server_router.go:37-106 | on an empty pattern it reports the error and changes nothing; otherwise the tables become Register's; the invariant is kept |
| Router.Server.WriteExact | g/net/ghttp/http_server_router.go:48-54 | the loop over the methods leaves the exact table equal to StoreExact of the keys, tree unchanged |
| Router.Server.WriteTree | g/net/ghttp/http_server_router.go:59-104 | the walk and list insertion leave the trees equal to InsertDynamic, exact table unchanged |
| Router.Server.SearchHandler | g/net/ghttp/http_server_router.go:123-194 | the search returns what Resolve returns on the current tables |
| Scenarios.UserIdEndToEnd | g/net/ghttp/http_server_router.go:37-194 | after registering `/user/:id`, a GET of `/user/42` from `example.com:8080` misses the exact table and finds the route with id bound to `42` |
| Scenarios.UserIdRegistered | g/net/ghttp/http_server_router.go:48-104 | registering `/user/:id` writes one exact key per method and a single leaf at `user` then `/` |
| Scenarios.UserIdExactMiss | g/net/ghttp/http_server_router.go:125-132 | the exact keys of `/user/:id` do not serve `/user/42` for either domain |
| Scenarios.UserIdCollected | g/net/ghttp/http_server_router.go:135-165 | the descent for `/user/42` collects exactly that one leaf list |
| Scenarios.UserIdTokens | g/net/ghttp/http_server_router.go:197-227 | `/user/:id` compiles to a literal and a parameter, closed, with the name `id` |
| Scenarios.UserIdAccepts | g/net/ghttp/http_server_router.go:171-186 | the route accepts a GET of `/user/42` and binds id to `42` |
| Scenarios.MethodPrefixNeverFound | g/net/ghttp/http_server_router.go:18-54 | a route registered as `GET:/a` is never found by a GET of `/a`, from any host: the stored key `GET:GET:/a@default` differs from every looked-up key `GET:/a@…` |
| Scenarios.DomainStaticNeverFound | g/net/ghttp/http_server_router.go:18-54 | the static route `/fixed@example.com` is stored under `GET:/fixed@example.com@example.com` (and the POST key), so a GET of `/fixed` from `example.com:8080` finds nothing |
| Scenarios.GetAParsed | g/net/ghttp/http_server_router.go:18-34 | `GET:/a` parses to method GET, keeps `GET:/a` as its uri, and is not dynamic |
| Scenarios.ParamBeforeWildcard | g/net/ghttp/http_server_router.go:109-120 | at equal priority, `/a/:id` is inserted in front of `/a/*rest` |
| Scenarios.DomainStaticFoundAtRawPath | g/net/ghttp/http_server_router.go:123-131 | a GET of `/fixed@example.com` from `example.com:8080` looks up the stored host key and returns the route registered for `/fixed@example.com` |
| Scenarios.CommaNameBindsNothing | g/net/ghttp/http_server_router.go:172-183 | `/:a,b` compiles to one capture group with the names string `a,b`; with one capture the binding is empty |
| Scenarios.BranchTreeBuilt | g/net/ghttp/http_server_router.go:56-78 | storing lists at the paths a, b, /, y and a, /, edit of an empty tree builds the two-branch tree of the descent scenario |
| Scenarios.DescentDoesNotBacktrack | g/net/ghttp/http_server_router.go:143-165 | over that tree the pieces a, b, edit collect no list, while the list of `/a/:id/edit` sits at a, /, edit |
| Scenarios.EmptyNameShiftsBinding | g/net/ghttp/http_server_router.go:172-219 | `/:/:id` compiles to two capture groups and the names string `id`; binding captures `x`, `42` maps id to `x`, the first capture |
| Scenarios.EmptyPieceCounts | g/net/ghttp/http_server_router.go:66-85 | `/a//:id` and `/a/:id` share a node but get priorities 3 and 2 |
| Scenarios.ExampleHost | g/net/ghttp/http_server_router.go:125 | the port is dropped from `example.com:8080` |

## Left out

- **Locks.** The locks `hmmu` and `htmu` are not modelled, so concurrent
  registration and lookup are not covered. Each operation is modelled as one
  atomic step.
- **gregx and the regexp engine.** They are not part of this model. Matching
  is modelled only for the rules patternToRegRule builds: literal segments
  followed by `/([\w\.\-]+)` or `/(.*)`. A literal segment that contains a
  regex metacharacter is matched as plain text, whereas the source passes it
  to the regex engine unescaped.
- **Case.** strings.ToUpper, ToLower and EqualFold are modelled on ASCII
  letters only. Unicode case folding is left out.
- **Lengths.** Go's `len` counts bytes; the model counts characters. Strings
  are taken to be ASCII.
- Router.Server.SearchHandler: requires a non-empty path.
  The source would panic on `r.URL.Path[1:]`, which the model does not
  represent.
- **Request segment `*list`.** A request segment equal to `*list` reaches the
  leaf-list slot of a source node through the child lookup. This is a
  type-assertion panic in the source. The model keeps children and leaf in
  separate fields, so this case is not represented.
- **The commented-out debug dump.** Lines 94-95 are ignored.
- **The request.** `Request` is reduced to method, Host header and path.
  Bound parameters are returned as a map instead of being written into
  `r.values`, and the one-element `[]string` wrapper is dropped.
- **Handlers.** The handler is an opaque identifier, `HandlerId`.
- **Pointer aliasing.** The source stores one `*HandlerItem` in the exact
  table and in the tree, and sets the priority after the exact writes. The
  model writes the fully stamped item (`Router.Stamp`) into both places,
  which gives the same observable state for a single registration. The
  model does not capture what happens when one item object is registered
  twice. setHandler writes uri, domain, method and priority through the
  item pointer, so the second call would also rewrite the entries stored by
  the first call, in both tables. The model keeps the first registration's
  entries as they were. Mutation through a shared pointer outside
  setHandler is not modelled either.
- **The trie as a value.** The tree is an immutable value. Registration
  computes the node path with a loop (`Tree.WalkSegments`) and rebuilds the
  path (`Tree.PutLeaf`) instead of creating and descending nodes in place.
- Router.Accept: treats a route
  whose uri has fewer than two characters as not matching. In the source,
  the unanchored raw rule (for example `/`) would be searched anywhere in the
  path. Such routes are never dynamic, so they never reach a leaf list.
- **Configuration.** `gDEFAULT_DOMAIN`, `gDEFAULT_METHOD` and `methodsMap`
  are not part of this model (they live outside the core file). They are
  parameters, through `Entities.Config`.
