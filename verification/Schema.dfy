/** Selector schemas of src/snarkyctl/targets/models.py and their dependency check. */
module Schema {
  import opened Prelude

  datatype FieldType = TextField | Choice | Boolean | Integer

  datatype Field = Field(
    name: string, fieldType: FieldType, required: bool, choices: seq<string>,
    fromProvider: bool, dependsOn: seq<string>)

  datatype Kind = Kind(kind: string, fields: seq<Field>)

  datatype SchemaError = DuplicateField | DuplicateDependency | UnknownDependency | DependencyCycle

  // ---------------------------------------------------------------- Graphs of names

  /** Each name with the names it depends on. */
  type Graph = map<string, seq<string>>

  ghost predicate Closed(graph: Graph) {
    forall name, needed :: name in graph && needed in graph[name] ==> needed in graph
  }

  /** A walk along dependencies: each name depends on the next one. */
  ghost predicate Walk(graph: Graph, walk: seq<string>) {
    && (forall i :: 0 <= i < |walk| ==> walk[i] in graph)
    && forall i :: 0 <= i < |walk| - 1 ==> walk[i + 1] in graph[walk[i]]
  }

  ghost predicate WalkFromTo(graph: Graph, walk: seq<string>, source: string, end: string) {
    |walk| >= 2 && Walk(graph, walk) && walk[0] == source && walk[|walk| - 1] == end
  }

  /** `source` depends on `end`, directly or through other names. */
  ghost predicate Reaches(graph: Graph, source: string, end: string) {
    exists walk :: WalkFromTo(graph, walk, source, end)
  }

  ghost predicate Cyclic(graph: Graph) {
    exists name :: Reaches(graph, name, name)
  }

  predicate Distinct(names: seq<string>) {
    forall i, j :: 0 <= i < j < |names| ==> names[i] != names[j]
  }

  /** Every listed name comes once and after all the names it depends on. */
  ghost predicate Topological(graph: Graph, order: seq<string>) {
    && Distinct(order)
    && (forall i :: 0 <= i < |order| ==> order[i] in graph)
    && forall i, needed :: 0 <= i < |order| && needed in graph[order[i]] ==> needed in order[..i]
  }

  /** A topological order of all names. */
  ghost predicate Sorted(graph: Graph, order: seq<string>) {
    Topological(graph, order) && forall name :: name in graph ==> name in order
  }

  lemma {:induction false} WalkDescends(graph: Graph, order: seq<string>, walk: seq<string>, i: nat, j: nat)
    requires Topological(graph, order) && |walk| >= 1 && Walk(graph, walk)
    requires i < |order| && j < |order| && order[i] == walk[0] && order[j] == walk[|walk| - 1]
    ensures j + |walk| - 1 <= i
    decreases |walk|
  {
    if |walk| >= 2 {
      assert walk[1] in order[..i];
      var k :| 0 <= k < i && order[k] == walk[1];
      var rest := walk[1..];
      assert forall m :: 0 <= m < |rest| ==> rest[m] == walk[m + 1];
      WalkDescends(graph, order, rest, k, j);
    }
  }

  /** A sorted graph has no cycle of any length. */
  lemma SortedIsAcyclic(graph: Graph, order: seq<string>)
    requires Sorted(graph, order)
    ensures !Cyclic(graph)
  {
    if Cyclic(graph) {
      var name :| Reaches(graph, name, name);
      var walk :| WalkFromTo(graph, walk, name, name);
      var i :| 0 <= i < |order| && order[i] == name;
      WalkDescends(graph, order, walk, i, i);
    }
  }

  lemma ReachesDirectly(graph: Graph, source: string, end: string)
    requires source in graph && end in graph && end in graph[source]
    ensures Reaches(graph, source, end)
  {
    assert WalkFromTo(graph, [source, end], source, end);
  }

  lemma ReachesThrough(graph: Graph, source: string, middle: string, end: string)
    requires source in graph && middle in graph[source] && Reaches(graph, middle, end)
    ensures Reaches(graph, source, end)
  {
    var walk :| WalkFromTo(graph, walk, middle, end);
    assert WalkFromTo(graph, [source] + walk, source, end);
  }

  lemma ReachesOnward(graph: Graph, source: string, middle: string, end: string)
    requires Reaches(graph, source, middle) && middle in graph && end in graph && end in graph[middle]
    ensures Reaches(graph, source, end)
  {
    var walk :| WalkFromTo(graph, walk, source, middle);
    assert WalkFromTo(graph, walk + [end], source, end);
  }

  /** The last step of a dependency chain is a direct dependency on its end. */
  lemma LastStep(graph: Graph, source: string, end: string) returns (last: string)
    requires Reaches(graph, source, end)
    ensures last in graph && end in graph[last]
    ensures last == source || Reaches(graph, source, last)
  {
    var walk :| WalkFromTo(graph, walk, source, end);
    last := walk[|walk| - 2];
    if |walk| > 2 {
      assert WalkFromTo(graph, walk[..|walk| - 1], source, last);
    }
  }

  // ---------------------------------------------------------------- Kinds

  function Names(kind: Kind): seq<string> {
    seq(|kind.fields|, i requires 0 <= i < |kind.fields| => kind.fields[i].name)
  }

  predicate UniqueNames(kind: Kind) { Distinct(Names(kind)) }

  predicate UniqueDependencies(kind: Kind) {
    forall i :: 0 <= i < |kind.fields| ==> Distinct(kind.fields[i].dependsOn)
  }

  predicate KnownDependencies(kind: Kind) {
    forall i :: 0 <= i < |kind.fields| ==> forall name :: name in kind.fields[i].dependsOn ==> name in Names(kind)
  }

  ghost predicate IsDependencyGraph(kind: Kind, graph: Graph) {
    && (forall name :: name in graph <==> name in Names(kind))
    && forall i :: 0 <= i < |kind.fields| ==>
      kind.fields[i].name in graph && graph[kind.fields[i].name] == kind.fields[i].dependsOn
  }

  /** The dictionary comprehension: with repeated names the last field wins. */
  function DependencyGraph(kind: Kind): (graph: Graph)
    ensures UniqueNames(kind) ==> IsDependencyGraph(kind, graph)
  {
    DependencyGraphUpTo(kind, |kind.fields|)
  }

  function DependencyGraphUpTo(kind: Kind, n: nat): (graph: Graph)
    requires n <= |kind.fields|
    ensures forall name :: name in graph <==> name in Names(kind)[..n]
    ensures UniqueNames(kind) ==> forall i :: 0 <= i < n ==>
      kind.fields[i].name in graph && graph[kind.fields[i].name] == kind.fields[i].dependsOn
  {
    if n == 0 then map[]
    else
      assert Names(kind)[..n] == Names(kind)[..n - 1] + [kind.fields[n - 1].name];
      assert UniqueNames(kind) ==> forall i :: 0 <= i < n - 1 ==> Names(kind)[i] != Names(kind)[n - 1];
      DependencyGraphUpTo(kind, n - 1)[kind.fields[n - 1].name := kind.fields[n - 1].dependsOn]
  }

  /** What the server accepts: unique names, unique known dependencies, no dependency cycle. */
  ghost predicate Acceptable(kind: Kind) {
    UniqueNames(kind) && UniqueDependencies(kind) && KnownDependencies(kind) && !Cyclic(DependencyGraph(kind))
  }

  // ---------------------------------------------------------------- The depth-first check

  /** The two sets that the nested `visit` closure shares. `order` records when names were finished. */
  class DependencyWalk {
    const graph: Graph
    var visiting: set<string>
    var visited: set<string>
    ghost var order: seq<string>

    constructor (graph: Graph)
      ensures this.graph == graph && visiting == {} && visited == {} && order == []
    {
      this.graph := graph;
      visiting, visited, order := {}, {}, [];
    }

    /** `path` is the current recursion path: exactly the names being visited. */
    ghost predicate Valid(path: seq<string>)
      reads this
    {
      && Closed(graph)
      && Walk(graph, path) && Distinct(path) && (forall name :: name in path <==> name in visiting)
      && Topological(graph, order) && (forall name :: name in order <==> name in visited)
      && visiting !! visited
    }

    /** Either finishes `name` and everything it depends on, leaving the path as it was, or
        finds a cycle. Terminates because the path cannot outgrow the graph. */
    method Visit(name: string, ghost path: seq<string>) returns (ok: bool)
      requires Valid(path) && name in graph && (path == [] || name in graph[path[|path| - 1]])
      modifies this
      ensures ok ==> Valid(path) && visiting == old(visiting)
      ensures ok ==> name in visited && old(visited) <= visited
      ensures !ok ==> Cyclic(graph)
      decreases graph.Keys - visiting
    {
      if name in visiting {
        CycleOnPath(graph, path, name);
        return false;
      }
      if name in visited { return true; }
      visiting := visiting + {name};
      ghost var longer := path + [name];
      var dependencies := graph[name];
      for i := 0 to |dependencies|
        invariant Valid(longer) && visiting == old(visiting) + {name} && old(visited) <= visited
        invariant forall k :: 0 <= k < i ==> dependencies[k] in visited
      {
        ok := Visit(dependencies[i], longer);
        if !ok { return; }
      }
      assert name !in order;
      TopologicalSnoc(graph, order, name);
      assert path == longer[..|path|];
      visiting := visiting - {name};
      visited := visited + {name};
      order := order + [name];
      return true;
    }
  }

  /** A name whose dependencies are all listed may come next. */
  lemma TopologicalSnoc(graph: Graph, order: seq<string>, name: string)
    requires Topological(graph, order) && name in graph && name !in order
    requires forall needed :: needed in graph[name] ==> needed in order
    ensures Topological(graph, order + [name])
  {
    var longer := order + [name];
    forall i, needed | 0 <= i < |longer| && needed in graph[longer[i]] ensures needed in longer[..i] {
      if i < |order| { assert longer[..i] == order[..i]; } else { assert longer[..i] == order; }
    }
  }

  lemma CycleOnPath(graph: Graph, path: seq<string>, name: string)
    requires Walk(graph, path) && name in path && name in graph && name in graph[path[|path| - 1]]
    ensures Cyclic(graph)
  {
    var k :| 0 <= k < |path| && path[k] == name;
    var walk := path[k..] + [name];
    assert WalkFromTo(graph, walk, name, name);
    assert Reaches(graph, name, name);
  }

  /** The dependencies of a field are unique and known. */
  predicate FieldPasses(kind: Kind, i: int)
    requires 0 <= i < |kind.fields|
  {
    Distinct(kind.fields[i].dependsOn) && forall name :: name in kind.fields[i].dependsOn ==> name in Names(kind)
  }

  /** The first field whose dependencies are refused. */
  predicate FirstRefused(kind: Kind, i: int) {
    0 <= i < |kind.fields| && !FieldPasses(kind, i) && forall k :: 0 <= k < i ==> FieldPasses(kind, k)
  }

  /** The checks before the walk, field by field: the first refused field decides, and a repeated
      dependency is reported before an unknown one. */
  method CheckNames(kind: Kind) returns (result: Result<(), SchemaError>)
    ensures result.Ok? <==> UniqueNames(kind) && UniqueDependencies(kind) && KnownDependencies(kind)
    ensures result == Err(DuplicateField) <==> !UniqueNames(kind)
    ensures result == Err(DuplicateDependency) <==>
      UniqueNames(kind) && exists i :: FirstRefused(kind, i) && !Distinct(kind.fields[i].dependsOn)
    ensures result == Err(UnknownDependency) <==>
      UniqueNames(kind) && exists i :: FirstRefused(kind, i) && Distinct(kind.fields[i].dependsOn)
    ensures result != Err(DependencyCycle)
  {
    if !UniqueNames(kind) { return Err(DuplicateField); }
    for i := 0 to |kind.fields|
      invariant forall k :: 0 <= k < i ==> FieldPasses(kind, k)
    {
      if !Distinct(kind.fields[i].dependsOn) {
        assert FirstRefused(kind, i);
        return Err(DuplicateDependency);
      }
      if exists name :: name in kind.fields[i].dependsOn && name !in Names(kind) {
        assert FirstRefused(kind, i);
        return Err(UnknownDependency);
      }
    }
    forall k | 0 <= k < |kind.fields|
      ensures Distinct(kind.fields[k].dependsOn)
      ensures forall name :: name in kind.fields[k].dependsOn ==> name in Names(kind)
    {
      assert FieldPasses(kind, k);
    }
    return Ok(());
  }

  /** The outer loop: visit every field in turn. */
  method VisitAll(graph: Graph, names: seq<string>) returns (ok: bool, ghost order: seq<string>)
    requires Closed(graph) && forall name :: name in graph <==> name in names
    ensures ok <==> !Cyclic(graph)
    ensures ok ==> Sorted(graph, order)
  {
    order := [];
    var walk := new DependencyWalk(graph);
    for i := 0 to |names|
      invariant walk.graph == graph && walk.Valid([]) && walk.visiting == {}
      invariant forall k :: 0 <= k < i ==> names[k] in walk.visited
    {
      ok := walk.Visit(names[i], []);
      if !ok { return; }
    }
    order := walk.order;
    SortedIsAcyclic(graph, order);
    return true, order;
  }

  /** validate_dependencies accepts exactly the acceptable kinds, and on acceptance the finishing
      order is a topological order of the fields. */
  method ValidateDependencies(kind: Kind) returns (result: Result<(), SchemaError>, ghost order: seq<string>)
    ensures result.Ok? <==> Acceptable(kind)
    ensures result.Ok? ==> Sorted(DependencyGraph(kind), order)
    ensures result == Err(DependencyCycle) <==>
      UniqueNames(kind) && UniqueDependencies(kind) && KnownDependencies(kind) && Cyclic(DependencyGraph(kind))
  {
    order := [];
    result := CheckNames(kind);
    if result.Err? { return; }
    KnownIsClosed(kind);
    var ok: bool;
    ok, order := VisitAll(DependencyGraph(kind), Names(kind));
    if !ok { return Err(DependencyCycle), order; }
  }

  lemma KnownIsClosed(kind: Kind)
    requires UniqueNames(kind) && KnownDependencies(kind)
    ensures Closed(DependencyGraph(kind))
  {
    var graph := DependencyGraph(kind);
    forall name, needed | name in graph && needed in graph[name] ensures needed in graph {
      var i :| 0 <= i < |kind.fields| && Names(kind)[i] == name;
      assert kind.fields[i].dependsOn == graph[name];
    }
  }
}
