# Isovalent Control: a verified model

This project models the parts of the console that rewrite Tetragon policies and keep bounded live state,
and proves what they promise. `dafny verify dfyconfig.toml` checks all of it.

**Policy rewriting.** A manifest is a JSON tree (`Json`). `Selectors` gives a TracingPolicy a meaning: a
policy is a set of hooks, a hook a disjunction of selectors (none of them means everything), a selector a
conjunction of clauses, and a negative clause holds when no listed value hits. The meaning of everything the
rewrites never write is a parameter, so the laws hold whatever it is. `Exclusions` follows the source's loops;
`ExclusionMeaning` proves that a rewrite takes away exactly what was excluded, `ExclusionLaws` that rewrites
are idempotent and fuse, `ExclusionNotes` what the notes report. `Tracing`, `SwitchLaws` and `TracingLaws` do the mode
switch and its detection in the written text (`Encoding`), `Guard` and `GuardLaws` the protection of the console, `Explain` the explainer's own reading of a
clause. `Library`, `LibraryLaws`, `LibraryNotes`, `Builder` and `BuildLaws` do the policy library of the front end,
whose specs are graphs of objects: `JsHeap` says what it means for a reference to hold a tree, and `LibraryWrites` changes the objects in place.

**Scanning and comparing.** `Scanner` is the machine that pulls a JSON object out of a model's reply, against a
printer for RFC 8259. `Audit` compares manifests, and `AuditLaws` says what the lines report. `Syslog` renders alerts, against readers of RFC 5424 and RFC 6587.

**Bounded state against unbounded logs.** `Ring` (the 90-slot time ring), `Observed` (the 400 most recently seen
values), `Hits` (500 values, the quietest dropped first), `Store` (the record history) and the recent lists in `Recent` are each
set against the log of everything that happened. `Runs` and `RunLaws` say what a whole log of flows and events amounts to;
the class in `Aggregator` is proved to hold exactly that after any calls, and the theorems about graphs
(`ServiceMap`), overviews (`Dashboard`) and alerts (`Alerts`) are about every log.

**Searching.** `Investigate`, `SearchLaws` and `Timeline` do the search, its facets and its timeline.

Objects the source updates in place are classes here (`Aggregator`, `Router`, `Tracker`, `PolicyState`,
`ObservedCatalog`, `MemoryStore`, `Guard`, `Heap`). Clocks are parameters; library sorts are known by their
contract alone, except sorting of strings, which has one result.

## Where a promise does not hold as stated

The code is modelled as it is. Where a promise needs a condition, the condition is proved both ways, and beside it
stands a lemma with inputs on which the promise fails:

- Approving exclusions twice is a no-op exactly when every selector they filter is a map (`ApplyIdempotent`,
  `NullSelectorBreaksIdempotence`).
- Merging drops an empty string that a clause listed, and with it what that string excluded
  (`ClauseMeaningExact`, `EmptyStringDropped`).
- Merging into a clause that follows children excludes what the named binaries started as well
  (`NamedBinaryExcluded` without, `FollowedBinaryExcluded` with, `FollowedChildExcluded`).
- A path note counts a selector that is not a map, where the filter is dropped (`ExclusionNotes.NotesMean`,
  `NoteOverstates`).
- The explainer tests whether some listed value differs, not whether none hits: the two agree exactly when a clause
  has one distinct value (`NegativeAgreesExactly`), and with two exclusions it names a selector that does not
  match (`TwoExclusionsStillExplained`).
- Switching to monitor leaves `matchReturnActions` enforcing (`MonitorIsDetectedExactly`,
  `ReturnActionsKeepEnforcing`). The switch commutes with exclusions exactly when it is to monitor or every hook has
  selectors that are maps (`SwitchCommutesWithExclusions`).
- A NotIn on the console's label that lists some other value stops the exemption, and the result shields the console
  exactly when some such NotIn lists the console or the rest of the selector refuses it (`ExemptShieldsExactly`,
  `OtherNotInStopsExemption`).
- A clicked policy facet also finds namespaced rows of the same bare name (`ClickReturnsCountExactly`, `PolicyStray`,
  `PolicyFacetFindsMore`).
- A query with an upper time bound can miss dropped records (`KeptAnswerAgrees`, `UpperBoundCanMiss`).
- The ring loses a slot exactly when a mark a multiple of 90 slots away comes after one of its own (`RingExactly`,
  `PointsExactly`, `LateMarkLoses`).
- The library builder says an exclusion that silently does nothing is worse than none. Nothing lands on an empty
  selector list, nor on a selector with a filter of its own in that dimension; an excluded event still fires exactly by
  these, even while the note says the exclusion was applied (`ExcludedBinaryStillFires`, `ExcludedParentStillFires`,
  `ExcludedPathStillFires`, `AppliedYetStillFires`, `EmptyListIgnoresExclusions`).
- The flag of a policy that cannot block is right exactly when a policy with a list of actions has one among them that
  enforces or posts (`FlagExactly`). A list of other actions, as in the shipped policies that only fetch a URL, and an
  empty list are not flagged and block nothing (`OtherActionIsNotFlagged`, `EmptyActionListIsNotFlagged`).
- Naming node labels is to restrict a policy to nodes that carry them (libraryYaml.ts:136, LibraryWizard.tsx:420-421).
  The builder writes them directly under `nodeSelector`, not under `matchLabels`, and that selector admits every node: the
  promise holds exactly for drafts that name no label (`NodesRestrictedExactly`, `NamingNodesDropsSelector`,
  `NamedNodesIgnored`).
- A built policy fires beyond its upstream one exactly for processes of an included host and on nodes that the upstream
  node selector left out, which naming nodes replaces (`BuiltShrinksExactly`, `HostWidens`, `NodesWiden`).
- Built names collide exactly when a selected name is another with one of its numbers after it
  (`NamesDistinctExactly`, `NumberedNameCollides`).
- Nodes and edges of the service map are known by text. Endpoints of a namespace called `external` share the nodes of those
  outside the cluster (`EndpointsMeetExactly`, `ExternalNamespaceMerges`).
- The timeline has at most 62 points exactly when the window touches at most 62 steps, as it may not when it is longer
  than 292 years, where the source's durations end (`AtMost62`).

Alert keys and syslog message ids would fail on kinds that begin one another up to a separator, or are no message ids
(`KeysMeetExactly`, `LineReadsBackExactly`). No kind that the console raises does (`RunKeysAreSubjects`,
`RunLinesReadBack`).

## Model

| member | source | states |
|---|---|---|
| Scanner.ExtractJSON | Isovalent-GUI/backend/internal/ai/ai.go:224-250 | The quote, escape and brace loop returns the text from the first `{` to the place where the machine first stops, or `{}` when the machine never stops, as without a brace. |
| Scanner.ExtractUndoesRender | Isovalent-GUI/backend/internal/ai/ai.go:224-250 | For every JSON object, with any strings and escapes and any nesting, every prefix without `{` and every suffix, extraction returns exactly the text of the object. |
| Scanner.RecoversExactly | Isovalent-GUI/backend/internal/ai/ai.go:224-250 | A prefix recovers every object after it if and only if it holds no `{`. |
| Scanner.ValueRun | Isovalent-GUI/backend/internal/ai/ai.go:227-248 | A value of any shape inside an object leaves the machine outside strings and at the depth it had: it never stops inside a string or a nested object. |
| Scanner.StringRun | Isovalent-GUI/backend/internal/ai/ai.go:231-240 | A string, whatever braces, quotes and escapes it holds, leaves the machine as it was. |
| Scanner.ObjectStops | Isovalent-GUI/backend/internal/ai/ai.go:241-247 | On an object the machine stops exactly at its last character. |
| Text.Union | Isovalent-GUI/backend/internal/k8s/exclusions.go:308-320 | The loop with its `seen` map computes the strictly sorted listing of the non-empty members of both lists. |
| Text.UnionMembers | Isovalent-GUI/backend/internal/k8s/exclusions.go:308-320 | A union is strictly sorted and has exactly the non-empty members of both lists. |
| Text.UnionFuses | Isovalent-GUI/backend/internal/k8s/exclusions.go:308-320 | Merging twice is merging once with both lists. |
| Json.SplitPairExact | Isovalent-GUI/backend/internal/k8s/exclusions.go:166-173 | A pair splits at its first equals sign, and does not split only when it has none. |
| Exclusions.MergeClause | Isovalent-GUI/backend/internal/k8s/exclusions.go:193-226 | The first clause that fits takes the values; without one a new clause is appended. |
| Exclusions.ApplyPathFilter | Isovalent-GUI/backend/internal/k8s/exclusions.go:228-246 | A path filter lands when its index is free or first used by a NotPrefix; elsewhere the selector is left alone. |
| Exclusions.PathArgIndex | Isovalent-GUI/backend/internal/k8s/exclusions.go:248-258 | The declared index of the argument that is the first of a path type (-1 when it declares none), and -1 when no argument is of a path type. |
| Exclusions.ApplyExclusions | Isovalent-GUI/backend/internal/k8s/exclusions.go:49-157 | The whole rewrite: an error for what is no object or has no spec, else the manifest with its spec rewritten and the notes; `ExclusionMeaning.PolicyMeaning` and `ExclusionNotes.NotesMean` say what these are. |
| ExclusionLaws.MergeFuses | Isovalent-GUI/backend/internal/k8s/exclusions.go:193-246 | Merging twice into the first fitting clause is merging once with both lists. |
| ExclusionLaws.PathStillLands | Isovalent-GUI/backend/internal/k8s/exclusions.go:228-246 | Where a path filter landed the next one lands, and where it was refused the next one is refused. |
| ExclusionLaws.FilterSelectorFuses | Isovalent-GUI/backend/internal/k8s/exclusions.go:115-135 | Filtering a selector twice is filtering it once with both requests. |
| ExclusionLaws.ApplyFuses | Isovalent-GUI/backend/internal/k8s/exclusions.go:46-157 | Applying two requests with one path argument index gives the manifest of their concatenation, if and only if the second meets no selector that is not a map. |
| ExclusionLaws.ApplyIdempotent | Isovalent-GUI/backend/internal/k8s/exclusions.go:46-157 | Approving the same request again changes nothing, if and only if every selector it filters is a map. |
| ExclusionLaws.NullSelectorBreaksIdempotence | Isovalent-GUI/backend/internal/k8s/exclusions.go:102-139 | A manifest with a null selector on which a second approval does change something. |
| ExclusionMeaning.ClauseMeaning | Isovalent-GUI/backend/internal/k8s/exclusions.go:193-246 | A negative clause given more values holds when it held before and none of them hits. |
| ExclusionMeaning.ClauseMeaningExact | Isovalent-GUI/backend/internal/k8s/exclusions.go:308-320 | That is so for every candidate if and only if the clause did not list the empty string, which the merge drops. |
| ExclusionMeaning.EmptyStringDropped | Isovalent-GUI/backend/internal/k8s/exclusions.go:308-320 | A clause listing the empty string and a binary refuses the empty candidate, and no longer does once another binary is merged in. |
| ExclusionMeaning.SelectorMeaning | Isovalent-GUI/backend/internal/k8s/exclusions.go:115-135 | A filtered selector matches an event if and only if it matched before and the event is none of what was excluded from it. |
| ExclusionMeaning.NamedBinaryExcluded | Isovalent-GUI/backend/internal/k8s/exclusions.go:206-226 | Where no clause that refuses binaries follows children, the exclusion covers exactly the named binaries. |
| ExclusionMeaning.FollowedBinaryExcluded | Isovalent-GUI/backend/internal/k8s/exclusions.go:206-226 | Where the first clause that refuses binaries follows children, it covers what the named ones started as well. |
| ExclusionMeaning.NewClauseNamesBinaries | Isovalent-GUI/backend/internal/k8s/exclusions.go:206-226 | A list that refuses nothing yet is given a clause for the named binaries alone, not for what they start. |
| ExclusionMeaning.PathLandsExactly | Isovalent-GUI/backend/internal/k8s/exclusions.go:228-246 | A path filter lands if and only if the first clause on its argument, if there is one, refuses prefixes already. |
| ExclusionMeaning.IndexChosen | Isovalent-GUI/backend/internal/k8s/exclusions.go:108-114 | The argument is the one of the request, or else the index declared by the first argument of type file, path, string, fd or dentry, if that is no negative number. |
| ExclusionMeaning.FollowedChildExcluded | Isovalent-GUI/backend/internal/k8s/exclusions.go:206-226 | A clause with followChildren on which excluding one binary also takes a child of it that nobody named. |
| ExclusionMeaning.MissingSelectors | Isovalent-GUI/backend/internal/k8s/exclusions.go:103-107 | A missing selector list made into one empty selector changes nothing. |
| ExclusionMeaning.HookMeaning | Isovalent-GUI/backend/internal/k8s/exclusions.go:102-139 | A filtered hook matches if and only if some selector matched that spares the event. |
| ExclusionMeaning.HookMinusExcluded | Isovalent-GUI/backend/internal/k8s/exclusions.go:102-139 | Without followed children a hook matches what it matched, minus the excluded binaries and parents and, by each selector where the path filter lands, the excluded paths. |
| ExclusionMeaning.PodSelectorMeaning | Isovalent-GUI/backend/internal/k8s/exclusions.go:63-83 | The pod selector admits exactly the pods it admitted, minus those with an excluded label. |
| ExclusionMeaning.ContainerSelectorMeaning | Isovalent-GUI/backend/internal/k8s/exclusions.go:85-92 | The container selector admits exactly the containers it admitted, minus the excluded names. |
| ExclusionMeaning.PolicyMeaning | Isovalent-GUI/backend/internal/k8s/exclusions.go:49-157 | The exact match set of a rewritten policy: what it was on its nodes and its host, minus the excluded pods, containers, binaries, parents and, where the path filter landed, paths. |
| ExclusionNotes.NotesMean | Isovalent-GUI/backend/internal/k8s/exclusions.go:56-156 | The notes, read off the manifests before and after: labels added, names asked for, all selectors there are afterwards for binaries and parents, and for paths the selectors that then refuse prefixes on the argument or were no maps, with the number of the others. |
| ExclusionNotes.NoteOverstates | Isovalent-GUI/backend/internal/k8s/exclusions.go:115-139 | A hook with a null selector, whose path filter is noted as landed and is nowhere in the result. |
| Explain.OpMatches | Isovalent-GUI/backend/internal/k8s/explain.go:234-270 | The loop over values and candidates finds the first non-empty candidate that some value satisfies. |
| Explain.SelectorClauses | Isovalent-GUI/backend/internal/k8s/explain.go:158-224 | The clauses of a selector with what was matched, and whether all of them were. |
| Explain.NegativeAgreesExactly | Isovalent-GUI/backend/internal/k8s/explain.go:255-262 | For a negative operator the explainer and the denotation agree on every candidate if and only if the clause has one distinct value. |
| Explain.ExplainerMatchesMeaning | Isovalent-GUI/backend/internal/k8s/explain.go:155-224 | On clauses where the two readings agree, the explainer names a selector if and only if the selector matches. |
| Explain.TwoExclusionsStillExplained | Isovalent-GUI/backend/internal/k8s/explain.go:255-262 | With two binaries excluded the explainer still names the selector for either of them, though it matches neither. |
| Tracing.DetectionReadsTokens | Isovalent-GUI/backend/internal/k8s/tracing.go:81-88 | Searching the written manifest for a quoted word finds it if and only if some token of the tree carries it. |
| Encoding.MarshalContains | Isovalent-GUI/backend/internal/k8s/tracing.go:81-88 | The written text of any tree contains a quoted word if and only if some key or string is that word, or ends in a quote and that word. |
| Tracing.SetTracingAction | Isovalent-GUI/backend/internal/k8s/tracing.go:93-148 | Every action of every selector is rewritten and the annotation set; a manifest without spec, without actions, or with a null map to write to is an error; `SwitchLaws` says what is written. |
| SwitchLaws.SwitchWrites | Isovalent-GUI/backend/internal/k8s/tracing.go:103-132 | In every selector of the four groups, in place: each action with an action key becomes Sigkill or Post and nothing else of it changes, a map without actions gets one only to enforce, and the rest of the selector stays. |
| SwitchLaws.EveryActionReads | Isovalent-GUI/backend/internal/k8s/tracing.go:90-132 | After a switch every action in a selector of the four groups reads Post, or Sigkill to enforce. |
| SwitchLaws.AnnotationWritten | Isovalent-GUI/backend/internal/k8s/tracing.go:133-143 | The annotation says monitor or enforce, other annotations and the rest of the metadata stay, and nothing is written where there is no metadata. |
| SwitchLaws.RestUntouched | Isovalent-GUI/backend/internal/k8s/tracing.go:93-148 | Nothing else in the manifest, the spec or a hook changes. |
| SwitchLaws.SwitchableExactly | Isovalent-GUI/backend/internal/k8s/tracing.go:102-132 | There is something to switch if and only if some action is there, or some map without actions when enforcing. |
| SwitchLaws.WritableExactly | Isovalent-GUI/backend/internal/k8s/tracing.go:112-131 | Enforcing fails if and only if some selector is no map; monitoring never does. |
| TracingLaws.LastToggleWins | Isovalent-GUI/backend/internal/k8s/tracing.go:93-148 | Toggling to one mode again, or to monitor and then to enforce, leaves what the last toggle leaves alone; with equal modes this is idempotence. |
| TracingLaws.EnforceIsDetected | Isovalent-GUI/backend/internal/k8s/tracing.go:81-148 | A successful switch to enforce is always detected as enforce. |
| TracingLaws.MonitorIsDetectedExactly | Isovalent-GUI/backend/internal/k8s/tracing.go:81-148 | A successful switch to monitor is detected as monitor if and only if nothing it leaves alone reads as enforcement. |
| TracingLaws.ReturnActionsKeepEnforcing | Isovalent-GUI/backend/internal/k8s/tracing.go:107-132 | A manifest whose return actions enforce still reads as enforcing after a switch to monitor. |
| TracingLaws.SwitchCommutesWithExclusions | Isovalent-GUI/backend/internal/k8s/tracing.go:93-148 | Excluding and switching commute if and only if the switch is to monitor, or every hook has selectors and they are maps. |
| TracingLaws.SwitchableAfterExclusions | Isovalent-GUI/backend/internal/k8s/tracing.go:107-147 | With a selector in every hook, the switch finds something to rewrite after exclusions if and only if it did before. |
| Guard.NamespacesNamedIn | Isovalent-GUI/backend/internal/guard/guard.go:106-145 | The walk returns exactly the namespaces positively selected by some map that can be reached in the manifest. |
| Guard.NamesHereExactly | Isovalent-GUI/backend/internal/guard/guard.go:106-176 | A map selects a namespace if and only if it is an expression on one of the five namespace keys with none of the five negative operators that lists it, or has it under a namespace label or in a list of matchLabels or matchNames. |
| Guard.NamedExactly | Isovalent-GUI/backend/internal/guard/guard.go:106-145 | Being found by the recursive reading and being selected at the end of some path in the tree are the same. |
| Guard.Guard.constructor | Isovalent-GUI/backend/internal/guard/guard.go:38-51 | The protected set holds exactly the trimmed non-empty namespaces it was given. |
| Guard.Guard.CheckManifest | Isovalent-GUI/backend/internal/guard/guard.go:75-104 | A manifest is rejected for its own protected namespace, else for a protected namespace it positively selects, else allowed. |
| Guard.Exempt | Isovalent-GUI/backend/internal/guard/guard.go:188-223 | A TracingPolicy with a spec is given one clause more, a NotIn of isovalent-control on app.kubernetes.io/part-of, unless a NotIn on that label is there already. |
| GuardLaws.ExclusionsKeepVerdict | Isovalent-GUI/backend/internal/k8s/exclusions.go:49-157 | Excluding never changes the verdict on a well-typed manifest. |
| GuardLaws.SwitchKeepsVerdict | Isovalent-GUI/backend/internal/k8s/tracing.go:93-148 | Switching the mode never changes the verdict on a well-typed manifest. |
| GuardLaws.ExemptKeepsVerdict | Isovalent-GUI/backend/internal/guard/guard.go:188-223 | Exempting never changes the verdict on a well-typed manifest. |
| GuardLaws.ExemptIdempotent | Isovalent-GUI/backend/internal/guard/guard.go:188-223 | Exempting twice is exempting once. |
| GuardLaws.ExemptMeaning | Isovalent-GUI/backend/internal/guard/guard.go:188-223 | A policy that was exempted selects exactly the pods it selected, without those whose self label has the value of the console. |
| GuardLaws.ExemptShieldsExactly | Isovalent-GUI/backend/internal/guard/guard.go:188-223 | The result spares every pod of the console if and only if the exemption was written, or some NotIn on the self label lists the console, or the selector without its NotIn clauses on the self label refuses every such pod. |
| GuardLaws.SelectorOnConsole | Isovalent-GUI/backend/internal/guard/guard.go:188-223 | A selector admits a pod of the console if and only if its other clauses do and no NotIn on the self label lists the console. |
| GuardLaws.ShieldIsRead | Isovalent-GUI/backend/internal/guard/guard.go:205-223 | When the pod selector says nothing but NotIn clauses on the self label, the result shields if and only if the exemption was written or one of them lists the console. |
| GuardLaws.OtherNotInStopsExemption | Isovalent-GUI/backend/internal/guard/guard.go:205-211 | A NotIn on the self label that lists another value stops the exemption and shields nothing. |
| Audit.DiffValue | Isovalent-GUI/backend/internal/audit/audit.go:189-226 | The recursion appends exactly the lines of the structural difference. |
| Audit.DiffManifests | Isovalent-GUI/backend/internal/audit/audit.go:172-187 | The lines sorted and cut after sixty, and no line at all if and only if both manifests are equal without managed fields and nulls. |
| Audit.NoLinesExactly | Isovalent-GUI/backend/internal/audit/audit.go:189-232 | No line arises if and only if both sides are equal once managed fields and null members are removed at every level: emptiness is an equivalence. |
| AuditLaws.LinesExactly | Isovalent-GUI/backend/internal/audit/audit.go:189-251 | The lines are exactly those of the dotted paths at which the manifests differ: the old and the new text of a leaf in this order, a map replaced, a list of another length. |
| Audit.Itoa | Isovalent-GUI/backend/internal/audit/audit.go:253-265 | The backward digit loop writes the decimal numeral. |
| Store.MemoryStore.Save | Isovalent-GUI/backend/internal/store/store.go:51-65 | Each kind keeps the last `cap` records of its log; other kinds are left alone. |
| Store.MemoryStore.Query | Isovalent-GUI/backend/internal/store/store.go:67-83 | The answer over what is kept; over increasing times it is the answer over the full log if and only if nothing dropped matches or the limit is used up, and always without an upper bound and with a limit within the capacity. |
| Store.FilterExactly | Isovalent-GUI/backend/internal/store/store.go:71-76 | A record is within a window if and only if it is not before its beginning nor after its end. |
| Store.KeptAnswerAgrees | Isovalent-GUI/backend/internal/store/store.go:67-83 | The condition above, both ways, for every log, capacity, window and limit. |
| Store.OpenEndedAnswerKept | Isovalent-GUI/backend/internal/store/store.go:67-83 | Without an upper bound and with 1 <= limit <= capacity the bounded answer is the unbounded one. |
| Store.OneAnswer | Isovalent-GUI/backend/internal/store/store.go:67-83 | Over strictly increasing times there is one answer, newest first. |
| Store.UpperBoundCanMiss | Isovalent-GUI/backend/internal/store/store.go:67-83 | A history on which a query with an upper bound misses a dropped record. |
| Observed.ObservedCatalog.Record | Isovalent-GUI/backend/internal/server/observed.go:61-86 | One sighting changes its dimension as the log of sightings says, and no other. |
| Observed.EvictOldest | Isovalent-GUI/backend/internal/server/observed.go:88-98 | The entry with the earliest last sighting is dropped. |
| Observed.RecordIn | Isovalent-GUI/backend/internal/server/observed.go:61-86 | An empty value is ignored, a known one refreshed, a new one entered after making room in a full bucket. |
| Observed.ExactlyMostRecent | Isovalent-GUI/backend/internal/server/observed.go:61-98 | Over strictly increasing times a bucket holds a value if and only if fewer than 400 distinct others were seen after it, with its last time. |
| Observed.CatalogueIsExact | Isovalent-GUI/backend/internal/server/observed.go:61-98 | So does every dimension of every reachable catalogue. |
| Hits.RecordIn | Isovalent-GUI/backend/internal/hits/hits.go:207-236 | One hit on a table: at most 500 entries, enforced <= count <= true occurrences, equality when nothing was dropped, and 500 times the count of any dropped entry is at most the hits so far. |
| Hits.EvictQuietest | Isovalent-GUI/backend/internal/hits/hits.go:238-247 | The entry with the least count is dropped. |
| Hits.PolicyState.Ingest | Isovalent-GUI/backend/internal/hits/hits.go:140-181 | One event updates totals, first and last time, samples and every table so that all still agree with the whole log of events: each table counts the hits that the events show, enforced or not, with their times and argument positions. |
| Hits.Tracker.Record | Isovalent-GUI/backend/internal/hits/hits.go:127-181 | An event with a policy reaches that policy and no other; one without is ignored; absent times are the present. |
| Hits.Tracker.Reset | Isovalent-GUI/backend/internal/hits/hits.go:328-333 | A reset forgets one policy and leaves the others. |
| Hits.TableMeaning | Isovalent-GUI/backend/internal/hits/hits.go:127-247 | Over any run between resets: tables within 500 entries; count, enforced count and latest time no more than the true ones and equal to them if nothing was dropped, the count short of the true one by no more than was lost, and the argument position of a path where the last event had it. |
| Hits.EntryMeaning | Isovalent-GUI/backend/internal/hits/hits.go:127-236 | An entry is about the last hits of its value by the events, in number, enforced number, first and latest time and position: about all of them if nothing was dropped. |
| Hits.HitsAre | Isovalent-GUI/backend/internal/hits/hits.go:127-181 | The hits of a value are as many as the events show it, as many enforced as enforced events show it, last at the latest such event, with the position in the last event that has one. |
| Hits.ShowsExactly | Isovalent-GUI/backend/internal/hits/hits.go:155-205 | What an event shows under each dimension: one field, the labels that are not made per pod, or the absolute paths among its arguments with their directories. |
| Hits.KeyIsPolicy | Isovalent-GUI/backend/internal/hits/hits.go:118-125 | Names without a slash have the same key if and only if they are the same name in the same namespace. |
| Hits.ShortByLost | Isovalent-GUI/backend/internal/hits/hits.go:207-247 | The true number of a value, in the table or not, exceeds its count by at most what dropped entries had counted. |
| Hits.Evicted | Isovalent-GUI/backend/internal/hits/hits.go:218-247 | Dropping the quietest entry of a full table moves its count, at most a five-hundredth of the log, to what is lost. |
| Sums.LeastTimesSize | Isovalent-GUI/backend/internal/hits/hits.go:238-247 | A map sums to at least its size times its least value: why a dropped count is small. |
| Timeline.Series | Isovalent-GUI/backend/internal/investigate/investigate.go:451-492 | Points in ascending order, one for each step hit, whose totals add up to the rows and whose blocked counts add up to the blocked rows; for rows in the window no more points than it touches steps, and at most 62 in a window of up to 292 years, beyond which the span is cut. |
| Timeline.DrawnConserves | Isovalent-GUI/backend/internal/investigate/investigate.go:475-490 | Totals and blocked counts of the points are those of the rows. |
| Timeline.AtMost62 | Isovalent-GUI/backend/internal/investigate/investigate.go:455-492 | Rows in a window always give at most 62 points if and only if it touches at most 62 steps, as every window of up to 292 years does. |
| SearchLaws.AtLeast60 | Isovalent-GUI/backend/internal/investigate/investigate.go:459-469 | A window of a minute or more, up to 292 years, touches more than 60 steps. |
| SearchLaws.SlotBegins | Isovalent-GUI/backend/internal/investigate/investigate.go:472-473 | A point is at the second after 1970 in which the step of its rows begins. |
| Timeline.StepsApart | Isovalent-GUI/backend/internal/investigate/investigate.go:463-480 | Distinct steps never begin in the same second. |
| Timeline.SameSlotSameStep | Isovalent-GUI/backend/internal/investigate/investigate.go:470-480 | Two truncated times are equal if and only if they are in the same step. |
| Investigate.Search | Isovalent-GUI/backend/internal/investigate/investigate.go:173-244 | The matching rows, newest first and cut to the limit, with the total, the facets and the timeline over all of them: its totals and blocked counts are those of the rows, one ascending point for each step hit with what fell into it, and at most 62 for rows in a window of up to 292 years. |
| SearchLaws.MatchesExactly | Isovalent-GUI/backend/internal/investigate/investigate.go:324-363 | A row matches if and only if it passes each condition of the filter: replies, blocked, nine lists, methods in any case, policies with or without namespace, and the two texts. |
| SearchLaws.QueryFindsField | Isovalent-GUI/backend/internal/investigate/investigate.go:356-371 | A query found in any of the nineteen fields of a row, in any case, finds the row. |
| SearchLaws.AnswerIsWanted | Isovalent-GUI/backend/internal/investigate/investigate.go:173-244 | Every row returned is from a source that was asked for and passes the filter, newest first, as many as there are up to the limit, 200 unless 1 to 2000 is given. |
| SearchLaws.FacetsAreAbout | Isovalent-GUI/backend/internal/investigate/investigate.go:400-428 | The field that each of the twelve facets is about. |
| SearchLaws.FacetsInOrder | Isovalent-GUI/backend/internal/investigate/investigate.go:429-436 | Facets come by falling count, and by name where the counts are equal. |
| Investigate.Keep | Isovalent-GUI/backend/internal/investigate/investigate.go:223-229 | Compacting the rows in place keeps exactly the matching rows in order. |
| Investigate.FacetsOf | Isovalent-GUI/backend/internal/investigate/investigate.go:400-447 | The listed values of one dimension with their exact counts, loudest first, cut to the cap so that nothing left out is louder. |
| Investigate.ClickNarrows | Isovalent-GUI/backend/internal/investigate/investigate.go:327-395 | A click narrows one empty field to a value and touches nothing else. |
| Investigate.ClickFinds | Isovalent-GUI/backend/internal/investigate/investigate.go:327-395 | The clicked search finds the counted rows and, beside them, rows picked under another name. |
| Investigate.ClickReturnsCount | Isovalent-GUI/backend/internal/investigate/investigate.go:173-447 | For namespaces, sources, destinations, verdicts, binaries, workloads, nodes and layer-7 types, clicking a listed facet returns exactly its count. |
| Investigate.ClickReturnsCountExactly | Isovalent-GUI/backend/internal/investigate/investigate.go:327-447 | For policies and methods the count is returned if and only if no matching row is picked under another name. |
| Investigate.PolicyStray | Isovalent-GUI/backend/internal/investigate/investigate.go:345-353 | What such a row is for policies: a namespaced row whose bare name is the clicked value. |
| Investigate.PolicyFacetFindsMore | Isovalent-GUI/backend/internal/investigate/investigate.go:345-353 | One policy name with and without a namespace: the facet of the bare name shows one row and clicking it finds two. |
| Alerts.Router.Dispatch | Isovalent-GUI/backend/internal/alerts/alerts.go:206-225 | An alert is sent if and only if its key was not sent within 60 s, on exactly the routes that take it, in their order; otherwise it is counted as suppressed. |
| Alerts.TakingExactly | Isovalent-GUI/backend/internal/alerts/alerts.go:119-157 | A route takes an alert if and only if it is enabled, the alert is critical where only those are wanted, and kind and namespace are listed where lists are given. |
| Alerts.Router.SetRoutes | Isovalent-GUI/backend/internal/alerts/alerts.go:183-188 | The routes are replaced and the memory of what was sent is kept. |
| Alerts.StagePacks | Isovalent-GUI/backend/internal/alerts/alerts.go:206-225 | In any order of arrival, what one stage accepts under a key is at least a window apart. |
| Alerts.StageCovers | Isovalent-GUI/backend/internal/alerts/alerts.go:206-225 | While times never go backwards, every alert has an accepted one of its key less than a window before it. |
| Alerts.DispatchPacks | Isovalent-GUI/backend/internal/server/aggregator.go:271-294 | Through both stages, what is sent about one subject is at least 60 s apart. |
| Alerts.DispatchCovers | Isovalent-GUI/backend/internal/server/aggregator.go:271-294 | Through both stages, every raised alert at t has one sent about its subject in (t - 65 s, t]. |
| Alerts.KeyIsKindAndTitle | Isovalent-GUI/backend/internal/server/aggregator.go:272-272 | Kinds without the separator make keys that identify kind and title. |
| Alerts.KeysMeetExactly | Isovalent-GUI/backend/internal/server/aggregator.go:272-275 | Keys of two different kinds can meet if and only if one kind with the separator after it begins the other. |
| Syslog.SendSyslog | Isovalent-GUI/backend/internal/alerts/alerts.go:282-305 | A datagram holds the line; a stream gets the line after its octet count. |
| Syslog.ElementReadsBack | Isovalent-GUI/backend/internal/alerts/alerts.go:422-440 | A reader of structured data (section 6.3 of RFC 5424) recovers kind, namespace, workload and policy for all strings, and leaves what follows. |
| Syslog.ValueReadsBack | Isovalent-GUI/backend/internal/alerts/alerts.go:471-474 | The escapes of section 6.3.3 read back for every value. |
| Syslog.PriorityDecodes | Isovalent-GUI/backend/internal/alerts/alerts.go:422-457 | The priority lies in 0..191 and decodes to the chosen facility and severity (section 6.2.1). |
| Syslog.LocalNames | Isovalent-GUI/backend/internal/alerts/alerts.go:443-450 | The names local0 to local7 of the menu give the facilities 16 to 23. |
| Syslog.LocalNamesExactly | Isovalent-GUI/backend/internal/alerts/alerts.go:443-450 | For n in 1..7 a name gives the facility 16 + n if and only if it is `local`, perhaps a plus sign, any zeros and the digit n. |
| Syslog.LineReadsBackExactly | Isovalent-GUI/backend/internal/alerts/alerts.go:422-440 | The whole line reads back field by field, to a reader that checks the fields of section 6 of RFC 5424, if and only if the kind is a message id: 1 to 32 printable ASCII characters. |
| Syslog.FramesReadBack | Isovalent-GUI/backend/internal/alerts/alerts.go:288-303 | Any frames sent one after another (section 3.4.1 of RFC 6587) are received as exactly the lines sent. |
| Ring.RingExactly | Isovalent-GUI/backend/internal/server/aggregator.go:350-360 | For any marks that count something, in any order of times, the ring shows the true counters of a slot if and only if no mark of another slot on the same bucket came after one of its own. |
| Ring.RingIsExact | Isovalent-GUI/backend/internal/server/aggregator.go:350-360 | While no mark is more than 89 slots late, the ring shows the true counters of each of the last 90 slots for any present not before the newest mark. |
| Ring.OverwritesOnlyOld | Isovalent-GUI/backend/internal/server/aggregator.go:355-358 | A bucket is taken over only by a slot at least 90 newer. |
| Ring.BucketsAreSane | Isovalent-GUI/backend/internal/server/aggregator.go:162-180 | In every bucket, whatever the times, drops <= flows and HTTP errors <= HTTP requests. |
| Ring.LateMarkLoses | Isovalent-GUI/backend/internal/server/aggregator.go:355-358 | A mark a multiple of 90 slots away takes the bucket of a slot, which then reads as empty whatever it counted. |
| ServiceMap.FlowKeepsFaithful | Isovalent-GUI/backend/internal/server/aggregator.go:154-207 | One more flow keeps every edge and node exact and the sums equal to the totals. |
| ServiceMap.KillKeepsFaithful | Isovalent-GUI/backend/internal/server/aggregator.go:233-246 | So does one more kill, counted on a node only when that is known. |
| Runs.GraphIsFaithful | Isovalent-GUI/backend/internal/server/aggregator.go:154-251 | Over every run: each edge has the forwarded, dropped, ports and protocols of exactly the flows with its key and joins known nodes; traffic sums to the flows, edge drops and node drops each to the drops, node kills to at most the kills. |
| RunLaws.KillsAreExact | Isovalent-GUI/backend/internal/server/aggregator.go:244-247 | Over every run, a node has exactly the kills of its workload that arrived after a flow had named it. |
| RunLaws.KillsAddUp | Isovalent-GUI/backend/internal/server/aggregator.go:233-247 | Over every run, the kills on nodes add up to the kills of workloads that a flow had named before. |
| RunLaws.NodesAreFirstNamed | Isovalent-GUI/backend/internal/server/aggregator.go:341-348 | Over every run, a node says what the endpoint that first went by its name says, and is external if and only if that was outside any namespace. |
| RunLaws.SlotCounts | Isovalent-GUI/backend/internal/server/aggregator.go:162-180 | Over every run, a slot counts exactly the flows of its ten seconds, dropped ones, HTTP requests, those from status 500, failed lookups, and kills. |
| RunLaws.AlertsExactly | Isovalent-GUI/backend/internal/server/aggregator.go:209-270 | Over every run, what is raised is one alert for every dropped flow and every kill, with the severity, kind, title, detail, place and policy that say so. |
| ServiceMap.EndpointsMeetExactly | Isovalent-GUI/backend/internal/server/aggregator.go:144-152 | Endpoints of namespaces without a slash share a node if and only if they are the same, or both are outside or in a namespace called external and are called the same. |
| ServiceMap.ExternalNamespaceMerges | Isovalent-GUI/backend/internal/server/aggregator.go:144-152 | A workload of a namespace called external has the node of the external endpoint of its name. |
| ServiceMap.EdgesMeetExactly | Isovalent-GUI/backend/internal/server/aggregator.go:183-188 | Flows whose sources hold no angle bracket share an edge if and only if they share both nodes. |
| Runs.TotalsAreCounted | Isovalent-GUI/backend/internal/server/aggregator.go:154-246 | Over every run, flows, drops and kills counted into slots add up to the totals. |
| Runs.CountsMeet | Isovalent-GUI/backend/internal/server/aggregator.go:350-360 | Marks that all fall between two slots are all counted between them. |
| Runs.AlertsAreOfTheLog | Isovalent-GUI/backend/internal/server/aggregator.go:209-270 | Every raised alert has a kind that is a message id without separators and the time of an arrival, and alerts are in order when arrivals are. |
| Runs.RunKeysAreSubjects | Isovalent-GUI/backend/internal/server/aggregator.go:209-294 | The alerts of any run have the same key, in either stage, if and only if they have the same kind and title. |
| Runs.RunLinesReadBack | Isovalent-GUI/backend/internal/alerts/alerts.go:422-440 | The syslog line of every alert of any run reads back field by field. |
| Runs.RunPacks | Isovalent-GUI/backend/internal/server/aggregator.go:271-294 | Over every run, in any order of times, what is sent about one subject is at least 60 s apart. |
| Runs.DroppedFlowIsReported | Isovalent-GUI/backend/internal/server/aggregator.go:207-231 | While times do not go backwards, every dropped flow is reported by an alert with its title sent less than 65 s before it or with it. |
| Runs.EnforcementIsReported | Isovalent-GUI/backend/internal/server/aggregator.go:260-269 | So is every SIGKILL or OVERRIDE. |
| Dashboard.PointsExactly | Isovalent-GUI/backend/internal/server/aggregator.go:459-480 | In any run a point of the overview is the true count of its ten seconds if and only if no mark of another slot on its bucket came after one of its own. |
| Dashboard.PointsAreExact | Isovalent-GUI/backend/internal/server/aggregator.go:459-480 | While nothing came more than 89 slots late, each point of the overview is the true count of its ten seconds. |
| Dashboard.PointsConserve | Isovalent-GUI/backend/internal/server/aggregator.go:459-480 | When everything fell within the last 90 slots the points add up to the totals. |
| Dashboard.SummaryIsSane | Isovalent-GUI/backend/internal/server/aggregator.go:470-489 | The drop rate never exceeds the flow rate, and the error percentage lies in 0..100. |
| GraphView.ListNodes | Isovalent-GUI/backend/internal/server/aggregator.go:399-412 | Every node once, in ascending order of identifiers. |
| GraphView.ListEdges | Isovalent-GUI/backend/internal/server/aggregator.go:413-431 | Every edge once, complete, with its ports once each in ascending order, sorted by source and target. |
| Recent.Tail | Isovalent-GUI/backend/internal/server/aggregator.go:383-390 | The last `limit` entries, or all of them without a usable limit. |
| Aggregator.PolicyNames | Isovalent-GUI/backend/internal/hubble/types.go:71-86 | The distinct policy keys of a flow, the first mentioned first. |
| Aggregator.Aggregator.IngestFlow | Isovalent-GUI/backend/internal/server/aggregator.go:154-231 | After a flow the recent list, totals, graph, ring, stored alerts and router are those of the log with that flow. |
| Aggregator.Aggregator.IngestEvent | Isovalent-GUI/backend/internal/server/aggregator.go:233-270 | After an event they are those of the log with that event. |
| Aggregator.Aggregator.PublishAlert | Isovalent-GUI/backend/internal/server/aggregator.go:271-294 | An alert is stored and routed unless one with its key was stored less than 5 s before. |
| Aggregator.Aggregator.BucketLocked | Isovalent-GUI/backend/internal/server/aggregator.go:350-360 | The bucket of a time, taken over from another slot if need be. |
| Aggregator.Aggregator.TouchNode | Isovalent-GUI/backend/internal/server/aggregator.go:341-348 | The node of an endpoint, made at its first mention. |
| Aggregator.Aggregator.RecentFlows | Isovalent-GUI/backend/internal/server/aggregator.go:362-367 | The exact suffix of the flows that arrived. |
| Aggregator.Aggregator.RecentAlerts | Isovalent-GUI/backend/internal/server/aggregator.go:376-381 | The exact suffix of the alerts the 5 s stage accepted. |
| Aggregator.Aggregator.ServiceMap | Isovalent-GUI/backend/internal/server/aggregator.go:411-432 | The listing of the graph of the whole run. |
| Aggregator.Aggregator.Overview | Isovalent-GUI/backend/internal/server/aggregator.go:459-490 | Totals, ninety points ten seconds apart up to the present, rates of the last six and percentage over all; every point is the true count of its slot if and only if no later mark took its bucket. |
| JsHeap.Heap.Clone | Isovalent-GUI/frontend/src/lib/libraryYaml.ts:397-397 | A reference to the same tree made of new cells only, at every level; nothing that was there changes. |
| JsHeap.Heap.Extended | Isovalent-GUI/frontend/src/lib/libraryYaml.ts:339-348 | A new list of the old elements themselves and new ones after them. |
| JsHeap.SetRewrites | Isovalent-GUI/frontend/src/lib/libraryYaml.ts:200-208 | Assigning to one place in a tree what was made out of the part there turns the tree into the one with that part replaced, and changes nothing outside the tree. |
| JsHeap.Frame | Isovalent-GUI/frontend/src/lib/libraryYaml.ts:396-397 | What a reference holds, and what it owns, depends on the cells it owns alone. |
| JsHeap.RewritesOne | Isovalent-GUI/frontend/src/lib/libraryYaml.ts:424-445 | Rewriting one of several trees that share no cell leaves the others as they were, and apart. |
| JsHeap.ShallowCopyLeaks | Isovalent-GUI/frontend/src/lib/libraryYaml.ts:396-397 | Had the spec been copied at its root only, any rewriting below the root of the copy would have rewritten the library in the same way. |
| LibraryWrites.ApplyMode | Isovalent-GUI/frontend/src/lib/libraryYaml.ts:187-215 | The tree at the spec becomes the one with every action of every selector of every group rewritten for the mode, and no cell outside that tree changes; `changed` if and only if the tree changed, `enforceable` if and only if some selector has a list of actions. |
| LibraryWrites.ApplyExclusions | Isovalent-GUI/frontend/src/lib/libraryYaml.ts:271-373 | The tree at the spec becomes the one with the exclusions, and no cell outside it changes; `LibraryNotes.NotesMean` says what the notes are. |
| LibraryNotes.NotesMean | Isovalent-GUI/frontend/src/lib/libraryYaml.ts:307-371 | The notes, read off the spec before and after: a dimension is applied if and only if some selector has other filters for it afterwards, with the number of those selectors, and for paths that of the others. |
| LibraryWrites.SelectorInPlace | Isovalent-GUI/frontend/src/lib/libraryYaml.ts:322-352 | A selector gets the filters it takes: binaries and parents where it has none of its own, paths on a free index; everything outside the selector is left alone and the hits are counted. |
| LibraryWrites.SelectorExtended | Isovalent-GUI/frontend/src/lib/libraryYaml.ts:281-304 | A pod or container selector is replaced by a new object with the old members and one list of old and new expressions. |
| LibraryWrites.PathArgIndex | Isovalent-GUI/frontend/src/lib/libraryYaml.ts:218-229 | The index of the first argument of a path type that declares a number, and nothing when there is none. |
| Library.LabelSelector | Isovalent-GUI/frontend/src/lib/libraryYaml.ts:231-246 | Pairs grouped by key in order of first mention, each with its values. |
| LibraryLaws.BuiltActions | Isovalent-GUI/frontend/src/lib/libraryYaml.ts:187-215 | The actions of a built spec are exactly the upstream actions, each rewritten for the mode. |
| BuildLaws.ActionsRewritten | Isovalent-GUI/frontend/src/lib/libraryYaml.ts:187-215 | In every selector of the five groups, in place: to alert, Sigkill, Override, NotifyEnforcer and Signal become a Post without argError and argSig; to block, a Post becomes a Sigkill; every other action stays. |
| LibraryLaws.AlertNeverEnforces | Isovalent-GUI/frontend/src/lib/libraryYaml.ts:181-207 | In alert mode no action of any group enforces, whatever else the draft asks for. |
| BuildLaws.AlertHoldsNoEnforcement | Isovalent-GUI/frontend/src/lib/libraryYaml.ts:161-207 | So for every policy that the draft selects to alert, under both keys and in all five groups. |
| LibraryLaws.BlockKeepsOthers | Isovalent-GUI/frontend/src/lib/libraryYaml.ts:181-211 | In block mode every action but Post is kept as it is: no override becomes a kill. |
| LibraryLaws.BlockEnforcesExactly | Isovalent-GUI/frontend/src/lib/libraryYaml.ts:199-210 | A policy built to block enforces somewhere if and only if upstream enforces or posts somewhere. |
| LibraryLaws.FlaggedHasNoAction | Isovalent-GUI/frontend/src/lib/libraryYaml.ts:194-198 | A policy flagged as not enforceable has no action. |
| LibraryLaws.FlagExactly | Isovalent-GUI/frontend/src/lib/libraryYaml.ts:194-198 | A block build is flagged exactly when it can block nothing, if and only if upstream has an enforcing action or Post wherever it has a list of actions at all. |
| LibraryLaws.OtherActionIsNotFlagged | Isovalent-GUI/frontend/src/lib/libraryYaml.ts:194-210 | A policy whose one action is GetUrl is not flagged, and its block build enforces nothing. |
| LibraryLaws.EmptyActionListIsNotFlagged | Isovalent-GUI/frontend/src/lib/libraryYaml.ts:194-198 | So with an empty list of actions. |
| LibraryLaws.ModeIdempotent | Isovalent-GUI/frontend/src/lib/libraryYaml.ts:187-215 | Applying a mode again changes nothing. |
| LibraryLaws.ModeKeepsMatches | Isovalent-GUI/frontend/src/lib/libraryYaml.ts:187-215 | A mode changes what happens on a match, never what matches. |
| LibraryLaws.SelectorMeaning | Isovalent-GUI/frontend/src/lib/libraryYaml.ts:322-349 | A selector matches what it matched, minus what it was given filters for. |
| LibraryLaws.HookMeaning | Isovalent-GUI/frontend/src/lib/libraryYaml.ts:313-349 | A hook with an empty selector list keeps matching everything; any other matches what one of its selectors matched and spares. |
| LibraryLaws.EmptyListIgnoresExclusions | Isovalent-GUI/frontend/src/lib/libraryYaml.ts:313-322 | On an empty selector list no exclusion lands. |
| LibraryLaws.ExcludedBinaryStillFires | Isovalent-GUI/frontend/src/lib/libraryYaml.ts:313-328 | An event of an excluded binary still fires a hook if and only if the selector list is empty, or a selector with a binary filter of its own matches and spares it in the other dimensions. |
| LibraryLaws.ExcludedParentStillFires | Isovalent-GUI/frontend/src/lib/libraryYaml.ts:313-334 | The same for an excluded parent and a parent filter of the selector. |
| LibraryLaws.ExcludedPathStillFires | Isovalent-GUI/frontend/src/lib/libraryYaml.ts:313-352 | The same for an excluded path and a hook without path argument, or a clause of the selector on its index. |
| LibraryLaws.AppliedYetStillFires | Isovalent-GUI/frontend/src/lib/libraryYaml.ts:322-358 | A hook with two selectors where the note reads applied and the excluded binary still fires. |
| LibraryLaws.SelectionMeaning | Isovalent-GUI/frontend/src/lib/libraryYaml.ts:280-304 | Pods and containers are selected as before, minus the excluded labels and names. |
| LibraryLaws.ExclusionsMeaning | Isovalent-GUI/frontend/src/lib/libraryYaml.ts:271-373 | The exact match set of a spec after exclusions. |
| LibraryLaws.ExclusionsShrink | Isovalent-GUI/frontend/src/lib/libraryYaml.ts:264-373 | Exclusions only take events away. |
| LibraryLaws.BuiltOnlyShrinks | Isovalent-GUI/frontend/src/lib/libraryYaml.ts:390-403 | A built policy fires only where upstream would, as long as the draft includes no host that upstream left out, and names no nodes where the upstream node selector asks for something. |
| LibraryLaws.BuiltMeaning | Isovalent-GUI/frontend/src/lib/libraryYaml.ts:390-403 | The exact match set of a built policy: on every node if the draft names any and on upstream nodes otherwise, in upstream pods and containers that are not excluded and on the host if included, what the hook matches and spares. |
| BuildLaws.PolicyFires | Isovalent-GUI/frontend/src/lib/libraryYaml.ts:390-403 | The match set of each policy of a draft, by its selection, its exclusions and the scope. |
| BuildLaws.ExclusionsJoin | Isovalent-GUI/frontend/src/lib/libraryYaml.ts:102-113 | A policy is built with what the draft excludes and with what is excluded for it alone, in each dimension. |
| BuildLaws.LabelReads | Isovalent-GUI/frontend/src/lib/libraryYaml.ts:231-238 | An excluded label is the text before the first equals sign with the text after it, or the whole text with nothing. |
| BuildLaws.LabelsWritten | Isovalent-GUI/frontend/src/lib/libraryYaml.ts:248-256 | Node labels are written as a map in which the last pair of a key wins and what has no equals sign is passed over. |
| LibraryLaws.BuiltShrinksExactly | Isovalent-GUI/frontend/src/lib/libraryYaml.ts:390-403 | Where a built policy fires, upstream fires if and only if it takes the host process, when the draft included the host, and its node selector admits the node, when the draft named nodes. |
| LibraryLaws.NodesRestrictedExactly | Isovalent-GUI/frontend/src/lib/libraryYaml.ts:248-256 | Every node that the written node selector admits carries the named labels if and only if the draft names none. |
| LibraryLaws.NamedNodesAdmitAll | Isovalent-GUI/frontend/src/lib/libraryYaml.ts:402-402 | Whatever labels are named, the written node selector admits every node. |
| LibraryLaws.NamingNodesDropsSelector | Isovalent-GUI/frontend/src/lib/libraryYaml.ts:390-403 | A policy built for named nodes fires exactly where one built from upstream without its node selector, for no nodes in particular, does. |
| LibraryLaws.NamedNodesIgnored | Isovalent-GUI/frontend/src/lib/libraryYaml.ts:402-402 | A draft that names disk=ssd builds a policy that fires on a node without any label. |
| LibraryLaws.AdmitsAllExactly | Isovalent-GUI/frontend/src/lib/libraryYaml.ts:280-304 | A selector admits all labels, whatever unknown operators mean, if and only if it lists no labels and no expression but NotIn of no values. |
| LibraryLaws.HostWidens | Isovalent-GUI/frontend/src/lib/libraryYaml.ts:403-403 | A policy that fires for host processes once the host is included, provided that it sees none without a host selector. |
| LibraryLaws.NodesWiden | Isovalent-GUI/frontend/src/lib/libraryYaml.ts:402-402 | A policy that fires on a node which its own node selector left out, once the draft names any node. |
| LibraryLaws.MergeJoins | Isovalent-GUI/frontend/src/lib/libraryYaml.ts:102-113 | Merging joins each dimension into a strictly sorted list of both, in either order. |
| Builder.SelectedPolicies | Isovalent-GUI/frontend/src/lib/libraryYaml.ts:154-159 | Each selected policy the library knows, once, in collation order of the names, and in the order of the selection between names that compare equal. |
| Builder.OneArrangement | Isovalent-GUI/frontend/src/lib/libraryYaml.ts:154-159 | That leaves one result. |
| Builder.TakeName | Isovalent-GUI/frontend/src/lib/libraryYaml.ts:405-408 | The first use of a name keeps it, later ones are numbered from 2. |
| Builder.NamesDistinctExactly | Isovalent-GUI/frontend/src/lib/libraryYaml.ts:405-408 | The built names are distinct if and only if no selected name is another one with one of its numbers after it. |
| Builder.Scope | Isovalent-GUI/frontend/src/lib/libraryYaml.ts:425-444 | One object for the cluster with the spec itself, or one for each namespace in order, each with a spec made of new cells that shares none with another. |
| Builder.BuildOne | Isovalent-GUI/frontend/src/lib/libraryYaml.ts:394-452 | One policy: notes, flags and objects, whose specs hold the upstream tree with mode, exclusions and scope, in new cells, each apart from the others; nothing that was there changes. |
| Builder.BuildSpec | Isovalent-GUI/frontend/src/lib/libraryYaml.ts:395-403 | The clone with mode, exclusions, node labels and host, made of new cells only. |
| Builder.BuildPolicies | Isovalent-GUI/frontend/src/lib/libraryYaml.ts:390-455 | The specs of all objects hold their trees in cells that are new and that no two of them share; every cell there was before, the whole library among them, is unchanged; k namespaces give k objects. |

## Left out

- HTTP handlers, the WebSocket hub, gRPC sources, the reverse proxy, Kubernetes, GitHub and Postgres clients, AI provider calls, configuration and user interface: input and output over libraries.
- Locks and goroutines: every operation is one atomic step, so nothing is said about interleavings inside one.
- `auth.go`, `apikeys.go`, `policy/dryrun.go` and `SimulateTracing`: cryptography, or easy, or not faithful to the meaning of selectors by their own design.
- JSON numbers are integers; fractions, exponents, huge numbers and negative zero are not modelled. Strings are sequences of characters: invalid UTF-8, UTF-16 order beyond the basic plane, Unicode case folding and Unicode white space are not modelled (ASCII only).
- Parsing of manifests: the methods start from the parsed tree. A manifest that does not parse is an error in `ApplyExclusions` and `SetTracingAction`, and is returned unmodified by `Exempt`, whose error value is not modelled.
- Maps and lists nested in a manifest of the Go side are values here, as decoding makes them, written back level by level as the source writes them in place; aliasing between parts of one manifest is not captured. The same goes for the bucket, edge, node, value and entry structs behind pointers, which are values of maps.
- The heap of the front end has plain objects and arrays only: no property order, prototypes, or difference between a missing property and null, which the builder reads alike. Library specs are trees, as the generated literals are; what `structuredClone` does with parts shared inside one spec is not modelled. The metadata of built objects are values.
- The namespace of a namespaced policy, which Tetragon applies. Node selectors are read as the label selectors that libraryYaml.ts:136 speaks of; whether the cluster refuses or drops keys that such a selector does not have is not modelled. Whether a policy without a host selector sees host processes, and what a host selector that is not empty takes, is a parameter: the wizard and two shipped descriptions read it differently.
- The texts of exclusion notes, violations, explanations, summaries and advice. The counts they are made of are modelled.
- Hooks, labels and network policies in the explainer (explain.go:53-152, 272-462): only the reading of a selector is modelled.
- The flow and event rows of a search (`flowRow`, `eventRow`) and the window parser: the search starts from rows. The scan limit of its two queries is not modelled; the queries themselves are in `Store`.
- `Log.Record` and `Log.Query` of the audit log, `Snapshot`, `Summaries` and `Detail` of the catalogues: sorting and copying.
- Slack, Teams, PagerDuty, webhook and CEF rendering, delivery and its counters; the syslog time stamp is a parameter.
- The aggregator's calls to the store, the catalogue, the hit tracker and the hub: each of the first three is modelled on its own, the hub is output. Its router is set at construction.
- The aggregator's counters are unbounded integers; the source's are 64-bit. Times are nanoseconds after 1970 (an absent time is Go's zero time), and `Overview` is asked at least fifteen minutes after 1970, where the source would index with a negative number.
- Rates and percentages are real numbers, without the rounding of floating point.
- A nil `Guard`, which allows everything.
- YAML output, the agent configuration and the per-section documents of the library builder.
- Non-string actions in the library are read as JavaScript's `String` reads them only as far as the comparison with action words goes.
- Following of children by a process filter is taken to mean the filter sees the ancestors' binaries, as the comment at exclusions.go:218-220 says.
