# route-prism, modelled and proved in Dafny

route-prism lets a request carry, from tier to tier of a Kubernetes cluster, which
variant of each Service it should reach. This project models the parts of it that
decide where a request goes, and proves what they promise each other:

* **The wire path.** The widget writes its choices into a cookie (`key:val|key:val`);
  a translator (Lua in OpenResty plus an nginx `map`) turns them into a W3C Baggage
  header (`key=val,key=val`); a mesh tier matches that header against regular
  expressions in an HTTPRoute. `Text`, `Wire`, `CookieStore`, `Browser`, `Percent`,
  `Translator`, `BaggageRegex`, `MeshRoute`, `Agreement`, `Backends`, `Chain`,
  `Selection`.
* **The query index.** A snapshot of all targets and alternatives is rebuilt behind a
  debouncer and a lock, published atomically, and served by binary search and cursors.
  `Order`, `Index`, `BuildContent`, `Freshness`, `SnapshotContent`, `QueryFilter`,
  `Pagination`, `Serving`.
* **Ownership and reconciliation.** Which ContextRoute owns a target and a routing key,
  and what any sequence of Reconcile calls does to the HTTPRoutes, up to a chain of
  tiers running on what the controllers left. `Api`, `Ownership`, `Reconcile`,
  `Deployment`.
* **Smaller compilers and parsers.** Hostname globs to Lua patterns (`HostGlob`),
  RemoteRoute upstreams to Envoy groups and the active upstream (`Upstreams`,
  `UpstreamContent`), version strings (`Version`).

A Go, Lua or JavaScript byte string is a Dafny `string` with one `char` per byte; an
absent header is the empty string. Code that loops over and updates variables is a
`method` with loop invariants, proved equal to a specification function; the lemmas are
about those functions. Protocols are state machines whose runs are sequences of steps.

`dafny verify dfyconfig.toml` checks everything.

## What the proofs found

* Mesh and translator do **not** always agree on one Baggage header: nginx ignores case
  in a `map`, so `key=V2` forks to `v2` at a translator only, and RE2 drops whitespace
  at the end of a member that Lua keeps. `Agreement.AgreeOnAnyHeader` gives the exact
  condition for every header, `Agreement.MeshAndTranslatorAgree` in terms of the single
  member when there is one, `Agreement.AgreementFails` two inputs. The regular
  expressions here match byte by byte; in RE2's UTF-8 mode `.` and `[^,]` do not match a
  byte that is not valid UTF-8, so such a header may be one more disagreement.
* Widget and translator send the same Baggage for one cookie if its value has no percent
  sign; only the widget decodes escapes. As long as the no-fork entries decode to nothing
  of consequence they do so if and only if no effective entry has a percent sign
  (`Percent.WidgetAndTranslatorAgree`). `Percent.PercentExample` is the cookie
  `c=web:v%32`, `Percent.NoForkKeyExample` a no-fork entry of consequence.
* With several source cookies in a chain, the first translator that finds an effective
  entry in its own cookie decides from there on (`Chain.ChainFollowsFirstContext`). So a
  map whose entries are all "." is obeyed if and only if the first such cookie has no
  variant for any tier from its own on (`Chain.NoForkMapObeyedIff`,
  `Selection.NoForkMapDisplaced`).
* For the same reason selecting a row of the widget's list can have no effect: the widget
  writes the row's own source cookie, while another one decides. A tier shows the
  selection if and only if the deciding cookie is the one written, or wants the same
  (`Selection.SelectionTakesIff`, `Selection.SelectionIgnored`).
* The three list filters are documented as ANDed, but `equals` switches `fuzzy` off
  (`QueryFilter.AppliedIsConjunction`, `QueryFilter.EqualsIgnoresFuzzy`).
* `/api/v1/tuple` can page forever: two ContextRoutes with different routing keys on one
  target Service produce equal tuple strings, and a cursor skips only one of them. The
  walk ends if and only if no tuple string fills more than a page in front of another row
  (`Pagination.WalkEndsIff`); `Serving.LoopingSnapshot` is a cluster where it does not.
  Such sharing can also split the widget's groups: every snapshot shows one group per key
  if and only if owners that share a Service have only its self row
  (`Serving.OneGroupPerKeyIff`, `Serving.SplitGroups`).
* The endpoint pick is meant to be deterministic, and its address is, but its port is so
  only if the least address comes with one port (`Backends.PickDoesNotDependOnOrderIff`,
  `Backends.PortDependsOnOrder`).
* Two ContextRoutes in different namespaces with equal creation time, name and routing
  key both pass the uniqueness check (`Ownership.TwoKeyOwners`). The CRD comment says
  colliding ones are *both* not ready (contextroute_types.go:70-73); the code holds back
  exactly the one that has an older rival (`Reconcile.OnlyYoungerHeldBack`,
  `Reconcile.OlderOfTwoStays`).
* Finishing the deletion of a ContextRoute removes exactly the HTTPRoute of the target its
  status records (`Reconcile.DeletionSpares`), and a loser's status records the contested
  target: deleting it takes the *winner's* route away until the winner's next Reconcile
  (`Reconcile.DeletingLoserDropsRoute`, `Reconcile.LoserDeletionExample`).
* A Rebuild that fails on a List call is not retried, so the old snapshot stays until
  some later event. A quiet server serves a build of the current cache if no rebuild was
  missed, and otherwise if and only if no routing key has come, gone or changed a row
  since the lists were read (`Freshness.PublishedIsFresh`,
  `Freshness.FailureLeavesStale`, `Freshness.StaleRun`). An update that changes no row,
  such as a resync, does no harm (`Freshness.HarmlessFailure`).

## Model

| member | source | states |
|---|---|---|
| Chain.EveryTierObeysTheCookie | modules/operator/internal/controller/templates/nginx.smart.conf.tmpl:25-149 | For any number of tiers behind an entry translator, each a translator with a cookie name of its own or mesh-only, every tier picks exactly the entry cookie's entry for its own routing key if it is one of its variants, else its default; only if that map has no effective entry do the other cookies have to be silent |
| Chain.Carried | modules/operator/cmd/sample-tier/main.go:214-218 | Once the Baggage header carries the map, and as services copy Baggage and Cookie, every tier obeys it, whatever cookies the request has and whatever names the translators lift; a map without effective entries needs cookies that yield none |
| Chain.ChainFollowsFirstContext | modules/operator/internal/controller/templates/nginx.smart.conf.tmpl:82-148 | For every chain and any maps in any cookies: a header map with an effective entry decides everywhere, or else the first effective one some translator lifts decides from that tier on, and every tier before it takes its default |
| Chain.NoForkMapObeyedIff | modules/operator/internal/controller/templates/nginx.smart.conf.tmpl:107-138 | A map without a fork is obeyed by every tier if and only if the first effective cookie lifted has, from its tier on, no variant for any tier |
| Selection.WidgetRequestObeyed | modules/web-widget/src/headerOverride.ts:1-32 | A request stamped with the widget's Baggage is obeyed by every tier, of either kind from the first on, even without its cookies; with the same proviso for a map without effective entries |
| Selection.SetEntryMovesOneKey | modules/web-widget/src/cookieStore.ts:72-86 | When the entry translator's own cookie is written, a page load is routed as before at every tier except those with that key, which fork to the new value if they have it; other cookies are silent, or the map has an effective entry before and after |
| Selection.SetEntryDecides | modules/web-widget/src/App.tsx:184-192 | Whatever cookie is written, each tier chooses, before and after, by the map of the first effective cookie lifted up to it |
| Selection.SelectionTakesIff | modules/web-widget/src/App.tsx:184-192 | A tier with the row's key shows the selection if and only if the first effective cookie lifted up to it is the one written or wants the same there; before any such cookie, only a selection of the default shows |
| Selection.SameLifterKeepsOthers | modules/web-widget/src/App.tsx:184-192 | While the same tier lifts first, tiers with other keys stay as they were, and all tiers do if that tier lifts another cookie than the one written |
| Selection.SelectionIgnored | modules/web-widget/src/App.tsx:186-188 | Two tiers and a page on which selecting a row of the second tier changes nothing |
| Selection.NoForkMapDisplaced | modules/operator/internal/controller/templates/nginx.smart.conf.tmpl:107-138 | Two tiers and two cookies for which the entry cookie asks for the default everywhere and the second tier forks |
| Chain.MeshHop | modules/operator/internal/controller/render_httproute.go:94-144 | A mesh tier that receives what a translator emitted picks the map's entry for its key and leaves the request as it is |
| Chain.TranslatorHop | modules/operator/internal/controller/templates/nginx.smart.conf.tmpl:80-149 | A translator whose context, from header or cookie, is the map's picks the map's entry for its key and emits the map again |
| Translator.AccessBlock | modules/operator/internal/controller/templates/nginx.smart.conf.tmpl:80-149 | The Lua block sets the variant to the value of the last effective member of the request's context and re-emits exactly that context |
| Translator.FindCookie | modules/operator/internal/controller/templates/nginx.smart.conf.tmpl:112-124 | The loop over cookie tokens stops at the first one with the configured name |
| Translator.ContextIs | modules/operator/internal/controller/templates/nginx.smart.conf.tmpl:80-138 | A member is in the context if and only if a comma-separated piece of the header writes it, behind whitespace and before properties, with a value other than "" and "."; or, when no piece writes any, a bar-separated piece of the named cookie does |
| Translator.EntriesInOrder | modules/operator/internal/controller/templates/nginx.smart.conf.tmpl:87-137 | Pieces contribute in order, each on its own |
| Translator.EmitReadBack | modules/operator/internal/controller/templates/nginx.smart.conf.tmpl:87-105 | Emitting members and reading them again gives the same sequence if and only if all are wire-safe |
| Translator.NormalisationPreservesMeaning | modules/operator/internal/controller/templates/nginx.smart.conf.tmpl:140-148 | For every header with an effective member, re-parsing the re-emitted header gives the same members, so every routing key keeps its value, and a second translator changes nothing |
| Translator.CookieMembersOfSerialized | modules/operator/internal/controller/templates/nginx.smart.conf.tmpl:125-137 | From a serialized cookie the Lua branch reads exactly the entries the widget keeps for its Baggage value |
| Browser.CookieHeaderLookup | modules/operator/internal/controller/templates/nginx.smart.conf.tmpl:112-124 | In a browser's Cookie header the Lua loop finds the value of the first cookie of that name |
| Browser.ReadCookie | modules/web-widget/src/cookieStore.ts:39-52 | The loop over document.cookie computes CookieOf |
| Browser.ReadCookieLookup | modules/web-widget/src/cookieStore.ts:39-52 | readCookie yields the first cookie stored under the plain or the URI-encoded name, decoded when it has a percent sign |
| Browser.FirstOfIs | modules/web-widget/src/cookieStore.ts:39-52 | It is the value of the cookie with one of the names that has none before it, "" without one |
| Percent.WidgetAndTranslatorAgree | modules/web-widget/src/headerOverride.ts:22-32 | For a cookie holding a serialized map the translator selects the map's own value, "." and "" meaning none, and emits the Baggage string the widget sends, with readCookie's decoding, when the value has no percent sign; if no-fork entries decode to nothing of consequence, exactly when no effective entry has one |
| Percent.PlainIsHarmless | modules/web-widget/src/cookieStore.ts:46-49 | A no-fork entry without a percent sign in its key decodes to nothing of consequence |
| Percent.UnescapeIs | modules/web-widget/src/cookieStore.ts:46-49 | Percent-decoding byte by byte obeys the three laws the agreement needs: it leaves text without escapes alone, shortens any other, and works piece by piece across the separator |
| Percent.PercentExample | modules/web-widget/src/cookieStore.ts:46-49 | A cookie with an escaped value on which the two send different Baggage |
| Percent.NoForkKeyExample | modules/web-widget/src/cookieStore.ts:46-49 | A cookie with a no-fork entry of consequence, for which only the widget sends anything |
| Translator.MapSelectIs | modules/operator/internal/controller/templates/nginx.smart.conf.tmpl:25-30 | The nginx map yields the one variant whose name equals the value without case, else the default |
| Translator.MapAddressIs | modules/operator/internal/controller/templates/nginx.smart.conf.tmpl:25-30 | The request goes to the address on the line of the variant chosen, else to the default address |
| CookieStore.ParseCookie | modules/web-widget/src/cookieStore.ts:9-20 | The parsing loop computes Parse, whose meaning the round trips give |
| CookieStore.ParseMeans | modules/web-widget/src/cookieStore.ts:9-20 | An entry is in the parsed map if and only if a bar-separated part sets it and no later part sets its key |
| CookieStore.ParseKeepsFirstPlaces | modules/web-widget/src/cookieStore.ts:9-20 | The entries stand in the order in which their keys are first set |
| CookieStore.SerializeEntries | modules/web-widget/src/cookieStore.ts:22-26 | The serializing loop computes Serialize |
| Browser.ReadBaggageValue | modules/web-widget/src/headerOverride.ts:22-32 | The widget's header value is the effective entries of the parsed cookie it reads, empty without a source cookie |
| Browser.CookieJar.SetEntry | modules/web-widget/src/cookieStore.ts:62-86 | Writes the old map, as readCookie finds it under either name, with one entry set, and changes no other cookie |
| Browser.CookieJar.Commit | modules/web-widget/src/App.tsx:184-192 | Selecting a row writes its entry into the row's own source cookie, or else the widget's, and nothing without either |
| CookieStore.RoundTrip | modules/web-widget/src/cookieStore.ts:9-26 | Parse of Serialize is the identity, order included, exactly on the clean maps, and these are exactly the range of Parse |
| CookieStore.SetChangesOneKey | modules/web-widget/src/cookieStore.ts:72-86 | Setting an entry changes only its key, keeps its place, and keeps all other entries in order |
| CookieStore.SetEntryReadBack | modules/web-widget/src/cookieStore.ts:72-86 | Re-reading the result of setEntry gives the updated map if and only if key and value are free of separators |
| BaggageRegex.PatternCompiles | modules/operator/internal/controller/render_httproute.go:33-37 | For every key and name the generated pattern text is read as the intended expression: quoting makes both literal |
| BaggageRegex.RegexLanguage | modules/operator/internal/controller/render_httproute.go:20-37 | The expression matches a whole newline-free header if and only if some comma-separated member is whitespace, key=svc, optional properties, whitespace |
| Order.SortedUnique | modules/operator/internal/controller/render_httproute.go:54-61 | Two sorted arrangements of the same strings are equal, so the rendered order does not depend on the sort |
| MeshRoute.RenderCRHTTPRoute | modules/operator/internal/controller/render_httproute.go:94-144 | The route bears the target's name behind "route-prism-cr-", in its namespace, with the ContextRoute as owner and the target as parent; one rule per variant in name order, and last a rule without a header to the target itself; the loop computes CRRoute |
| MeshRoute.MeshChoiceIs | modules/operator/internal/controller/render_httproute.go:103-131 | First match over the rendered rules picks the least variant name some member carries, and the target when none is carried |
| MeshRoute.RouteServes | modules/operator/internal/controller/render_httproute.go:94-144 | For every newline-free header some rule of the rendered route matches first: it sends to the carried variant of least name, on that Service's first port (80 without one), and to the target on its own when no variant is carried |
| Agreement.AgreeOnAnyHeader | modules/operator/internal/controller/render_httproute.go:103-131 | For every header, with any number of members for the key, and a translator that knows some or all of the mesh's variants: both choose the same backend if and only if the last effective value, lower-cased, is the least name the mesh reads, or is no variant the translator knows while the mesh reads none |
| Agreement.MeshAndTranslatorAgree | modules/operator/internal/controller/templates/nginx.smart.conf.tmpl:25-30 | With at most one member for the key they agree if and only if that member is not misread: no value equal to a variant only without case or after whitespace RE2 does not know, no variant followed by whitespace |
| Agreement.AgreementFails | modules/operator/internal/controller/templates/nginx.smart.conf.tmpl:87-105 | Two headers on which they disagree |
| Agreement.MeshReads | modules/operator/internal/controller/render_httproute.go:33-37 | What the mesh matches, in terms of what the Lua block cuts out of each member |
| Backends.FirstReadyEndpoint | modules/operator/internal/controller/edgetransformation_controller.go:271-312 | The nested loops compute Pick, the fold over all ready IPv4 addresses with their slice's port, or port 80 |
| Backends.PickByFields | modules/operator/internal/controller/edgetransformation_controller.go:271-312 | From the slices alone: empty if and only if no IPv4 slice has an endpoint not marked unready with an address; otherwise the least such address, and the first set port of the first slice that has it ready, else 80 |
| Backends.AddressDoesNotDependOnOrder | modules/operator/internal/controller/edgetransformation_controller.go:271-312 | The chosen address is the same for every order of slices, of endpoints in them and of addresses in those |
| Backends.PickDoesNotDependOnOrderIff | modules/operator/internal/controller/edgetransformation_controller.go:271-312 | Address and port are the same for every order if and only if the least address comes with one port |
| Backends.PortDependsOnOrder | modules/operator/internal/controller/edgetransformation_controller.go:301-304 | Two slices for which list order decides the port |
| Backends.CollectVariantBackends | modules/operator/internal/controller/edgetransformation_controller.go:238-269 | Collects exactly the variants with a ready endpoint, in list order, each with its picked address and port |
| Backends.CollectedByFields | modules/operator/internal/controller/edgetransformation_controller.go:238-269 | A variant is collected if and only if its slices have a ready IPv4 address, at the address and port picked from them |
| Backends.CollectedInOrder | modules/operator/internal/controller/edgetransformation_controller.go:238-269 | The variants are collected in list order, each on its own |
| Backends.TranslatorVariants | modules/operator/internal/controller/edgetransformation_controller.go:238-269 | A translator knows no variant the mesh rules lack, and all of them if and only if each has a ready endpoint |
| BuildContent.SameBuildIff | modules/operator/internal/apiserver/index.go:227-280 | A build of some complete lists is a build of others if and only if these have the same routing keys with the same rows |
| Freshness.FreshIffSameRows | modules/operator/internal/apiserver/index.go:146-282 | In every reachable state the served snapshot is a build of the current cache if and only if no key has come, gone or changed a row since its lists were read |
| Freshness.PublishedIsFresh | modules/operator/internal/apiserver/index.go:146-282 | Over all interleavings, List errors and stops included: with no undelivered event, armed timer, or queued or running Rebuild, the served snapshot is a build of the current cache unless a rebuild was missed; and then if and only if no key's rows changed, in particular if no kind moved on |
| Freshness.PublicationsMoveForward | modules/operator/internal/apiserver/index.go:146-152 | In every run each publication is at least as new, kind by kind, as the one before: a slow Rebuild never overwrites a fresher result |
| Freshness.InvStep | modules/operator/internal/apiserver/server.go:84-99 | Every step of handler registration, launch, event delivery, timer, lock, reads, publication, List error and stop keeps the freshness invariant |
| Freshness.InternalStepsRunOut | modules/operator/internal/apiserver/index.go:334-341 | Without further cluster changes every internal step leaves less to do, so the machinery comes to rest |
| Freshness.NeverStuck | modules/operator/internal/apiserver/index.go:334-341 | Until everything is quiet some internal step is possible, for a Rebuild that has read everything the publication of a build |
| Freshness.EnvironmentMoves | modules/operator/internal/apiserver/server.go:81-98 | Any kind of object can change to anything at any time, any List can fail and the server can stop whenever |
| Freshness.ComesToRest | modules/operator/internal/apiserver/server.go:84-99 | From every state of every run after Start, internal steps alone lead to a quiet state over the same cache, fresh if nothing was missed before |
| Freshness.FailureLeavesStale | modules/operator/internal/apiserver/index.go:154-161 | Any quiet run goes on by one update, its delivery, the timer, the lock and a List error to a quiet state whose snapshot, fresh before, is a build of the cache if and only if the update changed no key's rows |
| Freshness.HarmlessFailure | modules/operator/internal/apiserver/index.go:154-161 | After an update that changes no object the missed rebuild leaves a fresh snapshot |
| Freshness.StaleRun | modules/operator/internal/apiserver/server.go:84-99 | A run from an empty cluster after which the served targets lack a live ContextRoute's key and the snapshot is not a build of the cache |
| Index.Index.Rebuild | modules/operator/internal/apiserver/index.go:146-282 | The published snapshot is a correct build of the lists read: sorted targets, one entry per owner in each view, tuples a sorted permutation of all owner rows |
| SnapshotContent.BuildTells | modules/operator/internal/apiserver/index.go:143-282 | Every build says, in the fields of the listed objects: one key per routing key of a live ContextRoute; per key the rows, sorted alternatives and entry of its owner, the oldest and then first by name; each row's Service, tuple, self mark, cookie of the last live EdgeTransformation on the Service, and reachability of the last live RemoteRoute of that name; and the remote flags of exactly the remote rows |
| SnapshotContent.QuietServerTellsCluster | modules/operator/internal/apiserver/index.go:143-282 | Over every interleaving, once nothing is on its way and no rebuild was missed, the served snapshot says so of the cluster as it is, the alternatives being the Services of the owner's namespace its selector accepts |
| Index.BuildExists | modules/operator/internal/apiserver/index.go:217-281 | There is a build for every complete set of lists |
| Index.BuildAltEntry | modules/operator/internal/apiserver/index.go:284-316 | The alternatives are the target itself and its variants, sorted, with the lower-cased twin |
| Index.AltListIs | modules/operator/internal/apiserver/index.go:302-310 | The sorted alternatives are exactly the target itself and the names of the selected other Services |
| Index.CookieForIs | modules/operator/internal/apiserver/index.go:162-172 | The cookie shown is lifted by a live EdgeTransformation on the Service, and empty only when there is none |
| Index.RemoteForIs | modules/operator/internal/apiserver/index.go:174-199 | An alternative is remote if and only if a live RemoteRoute carries its name, with that RemoteRoute's reachability |
| SnapshotContent.ReachableIs | modules/operator/internal/apiserver/index.go:186-197 | Reachable is what the first UpstreamReachable condition says, and unknown if and only if there is none |
| SnapshotContent.RemoteIsShown | modules/operator/internal/apiserver/index.go:174-199 | The last live RemoteRoute of the name decides, with its own first condition |
| SnapshotContent.CookieIsShown | modules/operator/internal/apiserver/index.go:162-172 | The last live EdgeTransformation with a cookie on the Service decides |
| Index.ResolveOwners | modules/operator/internal/apiserver/index.go:201-215 | The owner fold yields, per routing key, the oldest live ContextRoute |
| Index.RemoteKeyInjective | modules/operator/internal/apiserver/index.go:35-39 | The `key:alt` encoding is injective for colon-free alternatives |
| Index.HasRemoteAgrees | modules/operator/internal/apiserver/index.go:254-261 | A target is flagged remote if and only if one of its alternatives is in remoteByAlt |
| Index.ServiceRowsContiguous | modules/web-widget/src/components/TupleList.tsx:22-26 | The rows of one Service stand together in the sorted tuples |
| Serving.TargetsServed | modules/operator/internal/apiserver/index.go:217-225 | The served targets are strictly sorted and non-empty, as the filter and the cursors need |
| Serving.TuplesServed | modules/operator/internal/apiserver/index.go:265 | The tuple list is strictly sorted if and only if no two owners share a target Service |
| Serving.AlternativesServed | modules/operator/internal/apiserver/index.go:302-315 | The served alternatives are strictly sorted and non-empty if and only if the listed Service names are non-empty, distinct and not the self marker |
| Serving.KeyRowsContiguous | modules/web-widget/src/components/TupleList.tsx:33-46 | While no two owners share a target the rows of one routing key stand together, so the widget shows one group per key |
| Serving.SharedRowsInterleave | modules/web-widget/src/components/TupleList.tsx:33-46 | If two owners of one Service both have a variant, every snapshot has a row of one between rows of the other |
| Serving.OneGroupPerKeyIff | modules/web-widget/src/components/TupleList.tsx:33-46 | Every build of the lists shows one group per key if and only if owners that share a Service have only its self row |
| Serving.SplitGroups | modules/operator/internal/apiserver/index.go:227-265 | A cluster, with a variant on one of two sharing owners, and a snapshot of it with two groups for one key |
| Serving.SharedTargetNeverEnds | modules/operator/internal/apiserver/api.go:348-368 | With two owners of one Service whose row is not the last, reading one tuple at a time never ends |
| Serving.LoopingSnapshot | modules/operator/internal/apiserver/index.go:201-215 | A cluster whose snapshot pages forever |
| QueryFilter.SubseqMatch | modules/operator/internal/apiserver/api.go:260-275 | The greedy scan succeeds if and only if an increasing embedding of the pattern exists |
| QueryFilter.PrefixWindow | modules/operator/internal/apiserver/api.go:226-234 | Two binary searches delimit exactly the entries with the prefix |
| QueryFilter.Apply | modules/operator/internal/apiserver/api.go:210-258 | The fast filter returns what a linear scan with the applied filter returns, in order |
| QueryFilter.AppliedIsConjunction | modules/operator/internal/apiserver/api.go:194-200 | The code computes the documented AND of all filters if and only if equals and fuzzy are not both set or fuzzy would have changed nothing |
| QueryFilter.EqualsIgnoresFuzzy | modules/operator/internal/apiserver/api.go:236-243 | An input on which the AND and the code differ |
| Pagination.Paginate | modules/operator/internal/apiserver/api.go:288-309 | Returns the window and cursor of PageOf |
| Pagination.PaginateBy | modules/operator/internal/apiserver/api.go:348-368 | The same for rows keyed by a field |
| Pagination.PageIs | modules/operator/internal/apiserver/api.go:288-309 | A page holds exactly the keys above its cursor and not above the next one |
| Pagination.PaginationSurvivesSwaps | modules/operator/internal/apiserver/api.go:120-130 | A walk whose pages come from different strictly sorted lists returns strictly increasing items, and each item present in all lists exactly once |
| Pagination.FixedWalk | modules/operator/internal/apiserver/api.go:288-309 | Following cursors through one list gives consecutive pages that cover it |
| Pagination.PagesIsCeiling | modules/operator/internal/apiserver/api.go:288-309 | The number of pages is max(1, ceil(n / limit)) |
| Pagination.TuplePagesTile | modules/operator/internal/apiserver/api.go:348-368 | With repeated keys the pages are still consecutive if and only if no page boundary splits equal keys |
| Pagination.WalkEndsIff | modules/operator/internal/apiserver/api.go:348-368 | A walk through rows with repeated keys ends if and only if no key fills more than a page in front of another row; otherwise the last row is never returned |
| Pagination.DuplicateRowsLoop | modules/operator/internal/apiserver/api.go:348-368 | The smallest list on which the second row comes back forever |
| Api.EffectiveKeyIs | modules/operator/api/v1alpha1/contextroute_types.go:87-97 | A routing key that is set is used as it is; the default is namespace, dot, target |
| Api.VariantsAre | modules/operator/internal/controller/contextroute_controller.go:113-131 | The variants are exactly the Services of the namespace that the selector accepts, except the target |
| Ownership.ResolveOwner | modules/operator/internal/controller/contextroute_controller.go:313-344 | Filter, sort and head give the same ContextRoute as the fold |
| Ownership.TargetOwnerByFields | modules/operator/internal/controller/contextroute_controller.go:313-344 | The owner of a target is live, on it, and created before every other live ContextRoute on it, or together with it and first by name |
| Ownership.FindCRForTarget | modules/operator/internal/controller/edgetransformation_controller.go:212-236 | The fold gives the first oldest live ContextRoute of the target |
| Ownership.KeyOwnerByFields | modules/operator/internal/apiserver/index.go:201-215 | The index's owner of a key likewise, among the live ContextRoutes with that key |
| Ownership.CheckConflicts | modules/operator/internal/controller/contextroute_controller.go:221-278 | Accepts exactly the ContextRoutes that own their target and have no older rival for their key |
| Ownership.AcceptedByFields | modules/operator/internal/controller/contextroute_controller.go:221-278 | A live ContextRoute is accepted if and only if no live one on its target and no other with its key was created before it, or with it under a lesser name |
| Ownership.OrderIrrelevant | modules/operator/internal/controller/contextroute_controller.go:335-343 | With distinct (time, name) pairs every list order gives the same owner |
| Ownership.OneOwnerPerTarget | modules/operator/internal/controller/contextroute_controller.go:227-244 | At most one live ContextRoute passes per namespace and target |
| Ownership.TwoKeyOwners | modules/operator/internal/controller/contextroute_controller.go:247-276 | Two ContextRoutes pass with one routing key if and only if they are tied on time and name and nobody with the key is older |
| Ownership.OneOwnerPerKey | modules/operator/internal/controller/contextroute_controller.go:247-276 | With distinct pairs at most one passes per routing key |
| Ownership.TiedOwnersExample | modules/operator/internal/controller/contextroute_controller.go:247-276 | Two namespaces in which both pass |
| Ownership.IndexListsAccepted | modules/operator/internal/apiserver/index.go:201-215 | With none terminating and distinct pairs, the accepted ContextRoutes are exactly the index's owners of their key that also win their target |
| Ownership.TranslatorFollowsTargetWinner | modules/operator/internal/controller/edgetransformation_controller.go:102-107 | The translator follows the target's winner, which is accepted if and only if it passes the key check |
| Reconcile.Cluster.Reconcile | modules/operator/internal/controller/contextroute_controller.go:85-190 | One call changes the store exactly as Step says, in every branch |
| Reconcile.StepEffect | modules/operator/internal/controller/contextroute_controller.go:85-219 | A step touches at most the HTTPRoute of the routed ContextRoute it reconciles, which it settles, or the recorded one of the terminating ContextRoute it finishes, which is gone |
| Reconcile.Converges | modules/operator/internal/controller/contextroute_controller.go:85-190 | In any order, with none terminating: each routed ContextRoute that was reconciled to the end has the rendered HTTPRoute, or none iff a live EdgeTransformation has the target, whatever state the others are in; all other routes are untouched |
| Reconcile.StaysConverged | modules/operator/internal/controller/contextroute_controller.go:85-190 | Once every routed ContextRoute is there no further Reconcile changes a route |
| Reconcile.TwoRoundsFinish | modules/operator/internal/controller/contextroute_controller.go:196-219 | Two rounds over all ContextRoutes, in any order, finish exactly those that do not fail on an invalid selector |
| Reconcile.StatusReflectsOwnership | modules/operator/internal/controller/contextroute_controller.go:227-276 | Through any run the status of a ContextRoute reconciled to the end names the winner of a lost target, tells which check failed, lists a routed one's variants in order, and tells which HTTPRoute is there |
| Reconcile.StatusByFields | modules/operator/internal/controller/contextroute_controller.go:85-190 | Through any run, in the fields of the objects: the winner named, the reason of the first check that failed, TargetNotFound and UnsupportedTargetType told apart, the variants listed, and the HTTPRoute present on the target or absent |
| Reconcile.VariantsKept | modules/operator/internal/controller/contextroute_controller.go:284-311 | Without a usable target the status keeps the variants it listed |
| Reconcile.OnlyYoungerHeldBack | modules/operator/internal/controller/contextroute_controller.go:247-276 | The routing-key check holds a ContextRoute back if and only if an older one has its key |
| Reconcile.OlderOfTwoStays | modules/operator/api/v1alpha1/contextroute_types.go:70-73 | Of two colliding ContextRoutes that won their targets, with nobody older, the older is accepted and only the younger is not ready |
| Reconcile.DeletionSpares | modules/operator/internal/controller/contextroute_controller.go:196-210 | Finishing a deletion spares a route if and only if the status does not record its target, and changes nothing else |
| Reconcile.LoserDeletionDropsAndRestores | modules/operator/internal/controller/contextroute_controller.go:196-210 | With the winner's target recorded it drops the winner's HTTPRoute, and the winner's next Reconcile puts it back |
| Reconcile.DeletingLoserDropsRoute | modules/operator/internal/controller/contextroute_controller.go:227-244 | From any steady store: once winner and loser of a target are reconciled, deleting the loser does that |
| Reconcile.LoserDeletionExample | modules/operator/internal/controller/contextroute_controller.go:360-371 | Such a run from a cluster where nothing was reconciled yet |
| Deployment.TierIsDeployed | modules/operator/internal/controller/contextroute_controller.go:137-159 | After any run that settles a target, the stored HTTPRoute, or the translator that follows the same ContextRoute with no HTTPRoute beside it, does what the tier does |
| Deployment.ChainIsDeployed | modules/operator/internal/controller/contextroute_controller.go:137-159 | A chain of settled targets chooses in the cluster what the chain of their tiers chooses |
| Deployment.ClusterObeysTheMap | modules/operator/internal/controller/render_httproute.go:94-144 | Every settled target of a chain obeys an effective map that the request brings |
| Deployment.KnownVariants | modules/operator/internal/controller/translator_render.go:138-158 | The sorted variants of a translator are at most the mesh's |
| Deployment.LineAddress | modules/operator/internal/controller/translator_render.go:138-158 | Every line of the nginx map carries the address and port picked from that variant's own slices |
| Deployment.LinesInOrder | modules/operator/internal/controller/translator_render.go:145-149 | There is one line per backend, in the order of their names |
| Deployment.ForkReachesPod | modules/operator/internal/controller/templates/nginx.smart.conf.tmpl:25-30 | At a settled target with a translator a fork to a variant reaches the address and port picked for it, and everything else the default |
| Deployment.ForkReachesService | modules/operator/internal/controller/render_httproute.go:94-144 | At a settled target without one, the stored HTTPRoute sends a fork to the variant's Service on its first port, and everything else to the target on its own |
| Deployment.TranslatorConfigured | modules/operator/internal/controller/edgetransformation_controller.go:102-107 | The translator lifts the cookie a live EdgeTransformation on the target names, under the ContextRoute's key |
| HostGlob.CompiledGlobIsExact | modules/operator/internal/controller/translator_render.go:240-258 | Under Lua's matcher the compiled pattern accepts a host if and only if the glob does: literally, or one non-empty dot-free label before the rest |
| HostGlob.LiteralTail | modules/operator/internal/controller/translator_render.go:252-258 | Escaping makes every magic character literal |
| Upstreams.ResolveUpstreams | modules/operator/internal/controller/remoteroute_render.go:69-151 | Succeeds if and only if every entry has a URL or group, every URL is usable, there is one, all share a scheme and all groups a mode; groups and endpoints keep the entries' order |
| UpstreamContent.ResolutionIsTold | modules/operator/internal/controller/remoteroute_render.go:69-168 | The same in the fields of the spec and the parsed URLs: when it succeeds, with which scheme and balancing policy, and each endpoint's host, its port (the URL's cut to 32 bits, else 80 or 443) and its TLS name |
| UpstreamContent.AtoiIs | modules/operator/internal/controller/remoteroute_render.go:153-168 | A text is read as n if and only if it is a decimal numeral of n, signed or not, that a 64-bit int holds |
| UpstreamContent.LooksLikeIPIs | modules/operator/internal/controller/remoteroute_render.go:170-185 | A host counts as an address if and only if it is four numbers from 0 to 255 between dots |
| Upstreams.AddURL | modules/operator/internal/controller/remoteroute_render.go:80-109 | Accepts a URL if and only if it is usable and fits the scheme seen so far |
| Upstreams.CountByPriority | modules/operator/internal/controller/remoteroute_controller.go:362-384 | Counts total and healthy hosts of the remote cluster per priority |
| Upstreams.RefreshUpstreamHealth | modules/operator/internal/controller/remoteroute_controller.go:281-308 | The active upstream is the name of the least priority with a healthy remote host, and each entry's status has its counts |
| UpstreamContent.RefreshIsTold | modules/operator/internal/controller/remoteroute_controller.go:281-308 | In the fields of the dump: each entry's count is the number of hosts of its priority in the remote cluster that failed no check and have no worse EDS state, and health, message and active upstream follow from these |
| Upstreams.ActiveTells | modules/operator/internal/controller/remoteroute_controller.go:301-307 | With unique non-empty names, an entry's name is active if and only if it is the first healthy one, and it is empty if and only if there is none |
| Version.AtoiPrefixLoop | modules/operator/internal/preflight/mesh.go:255-270 | The digit loop computes AtoiPrefix |
| Version.ParsePrinted | modules/operator/internal/preflight/mesh.go:218-253 | Parsing an optional v, a printed version and a suffix not starting with a digit returns the version if and only if every component fits an int |
| Version.ParseComponents | modules/operator/internal/preflight/mesh.go:234-253 | Any text with a dot: components count up to their first non-digit, a missing or unreadable patch is 0, and without a readable major and minor the version is zero |
| Version.ParseUndotted | modules/operator/internal/preflight/mesh.go:236-239 | Without a dot it is zero |
| Version.PrintOfValue | modules/operator/internal/preflight/mesh.go:220 | The printed number is the one decimal numeral without a leading zero |

## Left out

- HTTP serving, JSON, the dashboard, the widget's UI and its fetch/XHR patches: plumbing around the modelled functions.
- Kubernetes client, server-side apply and events: the store is a map or list, apply overwrites, events are not recorded.
- Label selectors beyond which label sets they accept, and `url.Parse` itself: both are parameters of the model.
- base64 cursors: assumed to be inverted on reading and to map "" to "".
- `parseLimit` and the substring filter of `/api/v1/tuple`: a limit is any number from 1, and the filter only selects rows.
- Rendering of Deployments, ConfigMaps, Services, the Envoy template, and the widget's body and header filters.
- Routing keys or names that break the Lua string literal they are written into: the template does not escape them, the model compares values.
- nginx map keys that are keywords, regular expressions or escapes: `Translator.MapLoads` excludes them, and nginx rejects or reinterprets such a block.
- WidgetAndTranslatorAgree: `decodeURIComponent` is a parameter of which three laws are used (`Percent.Unescape` is one such function), so a value on which it throws is not covered; for no-fork entries of consequence there is an example but no condition short of comparing the two results.
- Cookies with equal names but different paths or domains, and whitespace outside ASCII in `trim`.
- RE2's UTF-8 mode: the expressions match bytes, so headers that are not valid UTF-8 may be matched here only.
- Retargeted or terminating ContextRoutes in the convergence result: their old HTTPRoutes are not cleaned up on retarget.
- `strings.ToLower` outside ASCII.
- `sort.Slice` internals: any arrangement that is sorted, which is unique when the keys are distinct.
- EndpointSlice addresses that are empty strings: the API server admits none, and the statements about the pick suppose none.
- Lua captures' positions, `%b`, `%f` and back references: no compiled glob contains them.
- `Version.LessThan` and the known-issue table: a lexicographic comparison with nothing to add.
- The EdgeTransformation and RemoteRoute Reconcile calls as a whole: their owner, endpoint and upstream choices are modelled, the workloads they apply are not.
