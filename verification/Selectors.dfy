/**
 What a TracingPolicy matches. A policy is a set of hooks; a hook is a disjunction of selectors,
 where no selectors means everything; a selector is a conjunction of clauses
 (explain.go:155-157). A negative operator holds when no listed value hits.

 The meaning of what the exclusion code never writes (other selector keys, operators explain.go
 does not decide) is a parameter, so every law holds whatever that meaning is.
 */
module Selectors {
  import opened Json
  import opened Exclusions
  import Text

  /**
   What a hook sees when it fires. Lineages are the binaries of the ancestors; `labels` are those of the pod;
   a host process is outside any container.
   */
  datatype Event = Event(
    binary: string, lineage: set<string>,
    parent: string, parentLineage: set<string>,
    args: seq<string>,
    labels: map<string, string>,
    container: string,
    nodeLabels: map<string, string>,
    host: bool)

  type Oracle = (Json, Event) -> bool

  datatype Reading = OneOf | NoneOf | Undecided

  function ReadingOf(op: string): Reading {
    if op in {"", "In", "Equal", "Prefix", "Postfix"} then OneOf
    else if op in {"NotIn", "NotEqual", "NotPrefix"} then NoneOf
    else Undecided
  }

  predicate Hits(op: string, value: string, candidate: string) {
    if op == "Prefix" || op == "NotPrefix" then Text.HasPrefix(candidate, value)
    else if op == "Postfix" then Text.HasSuffix(candidate, value)
    else candidate == value
  }

  ghost predicate ClauseHolds(item: Json, candidates: set<string>, o: Oracle, e: Event) {
    var op, values := StrOf(Field(item, "operator")), ToStrings(Field(item, "values"));
    match ReadingOf(op)
    case OneOf => exists v, c :: v in values && c in candidates && Hits(op, v, c)
    case NoneOf => forall v, c :: v in values && c in candidates ==> !Hits(op, v, c)
    case Undecided => o(item, e)
  }

  /** A process filter sees the binary, and with followChildren its ancestors too. */
  function Processes(item: Json, binary: string, lineage: set<string>): set<string> {
    {binary} + (if Field(item, "followChildren") == Bool(true) then lineage else {})
  }

  /** An argument filter sees the argument at its index, if there is one. */
  function Argument(item: Json, args: seq<string>): set<string> {
    var index := IntOf(Field(item, "index"));
    if 0 <= index < |args| then {args[index]} else {}
  }

  ghost predicate BinariesHold(clauses: Json, binary: string, lineage: set<string>, o: Oracle, e: Event) {
    forall item :: item in Items(clauses) ==> ClauseHolds(item, Processes(item, binary, lineage), o, e)
  }

  ghost predicate ArgsHold(clauses: Json, o: Oracle, e: Event) {
    forall item :: item in Items(clauses) ==> ClauseHolds(item, Argument(item, e.args), o, e)
  }

  /** The keys of a selector that the rewrite may write. */
  const FILTERED: set<string> := {"matchBinaries", "matchParentBinaries", "matchArgs"}

  ghost predicate SelectorHolds(sel: Fields, o: Oracle, e: Event) {
    && BinariesHold(Get(sel, "matchBinaries"), e.binary, e.lineage, o, e)
    && BinariesHold(Get(sel, "matchParentBinaries"), e.parent, e.parentLineage, o, e)
    && ArgsHold(Get(sel, "matchArgs"), o, e)
    && o(Obj(sel - FILTERED), e)
  }

  ghost predicate HookHolds(hook: Fields, o: Oracle, e: Event) {
    var sels := Items(Get(hook, "selectors"));
    sels == [] || exists raw :: raw in sels && SelectorHolds(AsMap(raw), o, e)
  }

  // ----- label selectors (spec.podSelector, spec.containerSelector)

  ghost predicate ExprHolds(item: Json, labels: map<string, string>, o: Oracle, e: Event) {
    var key, op, values := StrOf(Field(item, "key")), StrOf(Field(item, "operator")), ToStrings(Field(item, "values"));
    match op
    case "In" => key in labels && labels[key] in values
    case "NotIn" => key in labels ==> labels[key] !in values
    case "Exists" => key in labels
    case "DoesNotExist" => key !in labels
    case _ => o(item, e)
  }

  ghost predicate Admits(selector: Json, labels: map<string, string>, o: Oracle, e: Event) {
    && (forall k :: k in AsMap(Field(selector, "matchLabels")) ==>
          k in labels && AsMap(Field(selector, "matchLabels"))[k] == Str(labels[k]))
    && (forall item :: item in Items(Field(selector, "matchExpressions")) ==> ExprHolds(item, labels, o, e))
  }

  /** A node selector is a label selector over the labels of the node; a missing one admits every node. */
  ghost predicate NodeSelected(selector: Json, o: Oracle, e: Event) {
    Admits(selector, e.nodeLabels, o, e)
  }

  /**
   An empty host selector takes every process outside containers. What another one takes, and whether any
   is taken without one, is a parameter.
   */
  ghost predicate HostSelected(selector: Json, o: Oracle, e: Event) {
    selector == Obj(map[]) || o(Obj(map["hostSelector" := selector]), e)
  }

  /** The process runs where the policy looks: on its nodes, and in its pods and containers or on the host. */
  ghost predicate ProcessSelected(spec: Fields, o: Oracle, e: Event) {
    && NodeSelected(Get(spec, "nodeSelector"), o, e)
    && (e.host ==> HostSelected(Get(spec, "hostSelector"), o, e))
    && (!e.host ==>
          && Admits(Get(spec, "podSelector"), e.labels, o, e)
          && Admits(Get(spec, "containerSelector"), map["name" := e.container], o, e))
  }

  /** Hook `i` of a group fires for an event of a selected process. */
  ghost predicate Fires(spec: Fields, group: string, i: nat, o: Oracle, e: Event) {
    && i < |Items(Get(spec, group))|
    && ProcessSelected(spec, o, e)
    && HookHolds(AsMap(Items(Get(spec, group))[i]), o, e)
  }
}
