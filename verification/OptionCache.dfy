/** The dependent-option cache of the catalogue editor in src/snarkyctl/static/dashboard.js. */
module OptionCache {
  import opened Prelude
  import opened Schema
  import Numerals

  // ---------------------------------------------------------------- Selector values

  /** A selector entry. `Undefined` is also the value of an absent key. */
  datatype Value = Undefined | Null | Text(text: string) | Number(n: int) | Flag(on: bool)

  type Selector = map<string, Value>

  /** JavaScript's String(value). */
  function Shown(value: Value): string {
    match value
    case Undefined => "undefined"
    case Null => "null"
    case Text(text) => text
    case Number(n) => if n < 0 then "-" + Numerals.Print(-n, 10) else Numerals.Print(n, 10)
    case Flag(on) => if on then "true" else "false"
  }

  function Lookup(selector: Selector, name: string): Value {
    if name in selector then selector[name] else Undefined
  }

  predicate HasValue(value: Value) { value != Text("") && value != Null && value != Undefined }

  function FieldDefault(field: Field): Value {
    if field.fieldType == Boolean then Flag(false)
    else if field.fieldType == Integer then Number(0)
    else if !field.fromProvider && field.choices != [] then Text(field.choices[0])
    else Text("")
  }

  /** Array.find by name. */
  function FindField(fields: seq<Field>, name: string): (found: Option<Field>)
    ensures found.Some? ==> found.value in fields && found.value.name == name
    ensures (exists i :: 0 <= i < |fields| && fields[i].name == name) ==> found.Some?
  {
    if fields == [] then None
    else if fields[0].name == name then Some(fields[0])
    else
      assert forall i :: 1 <= i < |fields| ==> fields[i] == fields[1..][i - 1];
      FindField(fields[1..], name)
  }

  function FieldNamed(kind: Kind, name: string): (field: Field)
    requires name in Names(kind)
    ensures field in kind.fields && field.name == name
  {
    assert exists i :: 0 <= i < |Names(kind)| && Names(kind)[i] == name;
    FindField(kind.fields, name).value
  }

  /** dependenciesHaveValues */
  predicate DependenciesHaveValues(selector: Selector, field: Field) {
    forall name :: name in field.dependsOn ==> HasValue(Lookup(selector, name))
  }

  /** discoveryContext, as the entries that its JSON key lists. */
  function Context(selector: Selector, field: Field): seq<(string, Value)> {
    seq(|field.dependsOn|,
      i requires 0 <= i < |field.dependsOn| => (field.dependsOn[i], Lookup(selector, field.dependsOn[i])))
  }

  // ---------------------------------------------------------------- Transitive invalidation

  /** The fields that depend on `changed`, directly or through other fields. */
  ghost function Dependents(kind: Kind, changed: string): set<string> {
    set name | name in Names(kind) && Reaches(DependencyGraph(kind), name, changed)
  }

  ghost function NameSet(kind: Kind): set<string> {
    set name | name in Names(kind)
  }

  /** Defaults for exactly the given fields, the rest untouched. */
  ghost function Reset(kind: Kind, selector: Selector, names: set<string>): Selector
    requires names <= NameSet(kind)
  {
    map name | name in selector.Keys + names ::
      if name in names then FieldDefault(FieldNamed(kind, name)) else selector[name]
  }

  lemma ResetAgain(kind: Kind, selector: Selector, first: set<string>, second: set<string>)
    requires first + second <= NameSet(kind)
    ensures Reset(kind, Reset(kind, selector, first), second) == Reset(kind, selector, first + second)
  {
  }

  lemma RemoveAgain(states: map<string, nat>, first: set<string>, second: set<string>)
    ensures (states - first) - second == states - (first + second)
  {
  }

  lemma ResetOne(kind: Kind, selector: Selector, i: nat)
    requires UniqueNames(kind) && i < |kind.fields|
    ensures {kind.fields[i].name} <= NameSet(kind)
    ensures Reset(kind, selector, {kind.fields[i].name}) ==
      selector[kind.fields[i].name := FieldDefault(kind.fields[i])]
  {
    FieldNamedAt(kind, i);
  }

  lemma FieldNamedAt(kind: Kind, i: nat)
    requires UniqueNames(kind) && i < |kind.fields|
    ensures kind.fields[i].name in Names(kind) && FieldNamed(kind, kind.fields[i].name) == kind.fields[i]
  {
    assert Names(kind)[i] == kind.fields[i].name;
    var field := FieldNamed(kind, kind.fields[i].name);
    var k :| 0 <= k < |kind.fields| && kind.fields[k] == field;
    assert Names(kind)[k] == Names(kind)[i];
  }

  /** What clearing field i resets: the field and its own dependents. */
  ghost function Under(kind: Kind, i: nat): set<string>
    requires i < |kind.fields|
  {
    {kind.fields[i].name} + Dependents(kind, kind.fields[i].name)
  }

  /** A direct dependent and its own dependents all depend on the changed field, and there are fewer of the latter. */
  lemma DependentsShrink(kind: Kind, changed: string, i: nat)
    requires Acceptable(kind) && changed in Names(kind)
    requires i < |kind.fields| && changed in kind.fields[i].dependsOn
    ensures Under(kind, i) <= Dependents(kind, changed)
    ensures Dependents(kind, kind.fields[i].name) < Dependents(kind, changed)
  {
    var graph := DependencyGraph(kind);
    var name := kind.fields[i].name;
    assert Names(kind)[i] == name;
    ReachesDirectly(graph, name, changed);
    forall other | other in Dependents(kind, name) ensures other in Dependents(kind, changed) {
      ReachesOnward(graph, other, name, changed);
    }
    assert name !in Dependents(kind, name) by {
      if Reaches(graph, name, name) { assert Cyclic(graph); }
    }
  }

  /** The dependents are the union of what lies under the direct dependents. */
  ghost function Cleared(kind: Kind, changed: string, n: nat): set<string>
    requires n <= |kind.fields|
  {
    if n == 0 then {}
    else if changed in kind.fields[n - 1].dependsOn then Cleared(kind, changed, n - 1) + Under(kind, n - 1)
    else Cleared(kind, changed, n - 1)
  }

  lemma {:induction false} ClearedContains(kind: Kind, changed: string, n: nat, i: nat)
    requires i < n <= |kind.fields| && changed in kind.fields[i].dependsOn
    ensures Under(kind, i) <= Cleared(kind, changed, n)
  {
    if i < n - 1 { ClearedContains(kind, changed, n - 1, i); }
  }

  lemma {:induction false} ClearedBounded(kind: Kind, changed: string, n: nat, bound: set<string>)
    requires n <= |kind.fields|
    requires forall i :: 0 <= i < n && changed in kind.fields[i].dependsOn ==> Under(kind, i) <= bound
    ensures Cleared(kind, changed, n) <= bound
  {
    if n > 0 { ClearedBounded(kind, changed, n - 1, bound); }
  }

  lemma ClearedWithin(kind: Kind, changed: string, n: nat)
    requires Acceptable(kind) && changed in Names(kind) && n <= |kind.fields|
    ensures Cleared(kind, changed, n) <= Dependents(kind, changed)
  {
    forall i | 0 <= i < n && changed in kind.fields[i].dependsOn ensures Under(kind, i) <= Dependents(kind, changed) {
      DependentsShrink(kind, changed, i);
    }
    ClearedBounded(kind, changed, n, Dependents(kind, changed));
  }

  lemma ClearedAll(kind: Kind, changed: string)
    requires Acceptable(kind) && changed in Names(kind)
    ensures Cleared(kind, changed, |kind.fields|) == Dependents(kind, changed)
  {
    ClearedWithin(kind, changed, |kind.fields|);
    var graph := DependencyGraph(kind);
    forall name | name in Dependents(kind, changed) ensures name in Cleared(kind, changed, |kind.fields|) {
      var last := LastStep(graph, name, changed);
      var i :| 0 <= i < |Names(kind)| && Names(kind)[i] == last;
      assert changed in kind.fields[i].dependsOn;
      ClearedContains(kind, changed, |kind.fields|, i);
    }
  }

  /** Clearing one more direct dependent. */
  lemma ClearOneMore(kind: Kind, changed: string, i: nat, selector: Selector, states: map<string, nat>)
    requires Acceptable(kind) && changed in Names(kind)
    requires i < |kind.fields| && changed in kind.fields[i].dependsOn
    ensures Dependents(kind, kind.fields[i].name) < Dependents(kind, changed)
    ensures var before, after := Cleared(kind, changed, i), Cleared(kind, changed, i + 1);
      before <= NameSet(kind) && after <= NameSet(kind) && Under(kind, i) <= NameSet(kind) &&
      Reset(kind, Reset(kind, selector, before), Under(kind, i)) == Reset(kind, selector, after) &&
      (states - before) - Under(kind, i) == states - after
  {
    DependentsShrink(kind, changed, i);
    ClearedWithin(kind, changed, i);
    ResetAgain(kind, selector, Cleared(kind, changed, i), Under(kind, i));
    RemoveAgain(states, Cleared(kind, changed, i), Under(kind, i));
  }

  lemma NothingReset(kind: Kind, selector: Selector)
    ensures Reset(kind, selector, {}) == selector
  {
  }

  /** One editable target with the discovery states of its fields (here: the request that created each). */
  class EditorTarget {
    var selector: Selector
    var states: map<string, nat>

    constructor (selector: Selector, states: map<string, nat>)
      ensures this.selector == selector && this.states == states
    {
      this.selector, this.states := selector, states;
    }

    /** clearDependentFields. On an accepted schema it terminates and resets exactly the
        transitive dependents, value and discovery state. */
    method ClearDependentFields(kind: Kind, changed: string)
      requires Acceptable(kind) && changed in Names(kind)
      modifies this
      ensures selector == Reset(kind, old(selector), Dependents(kind, changed))
      ensures states == old(states) - Dependents(kind, changed)
      decreases Dependents(kind, changed), 0
    {
      NothingReset(kind, selector);
      for i := 0 to |kind.fields|
        invariant Cleared(kind, changed, i) <= NameSet(kind)
        invariant selector == Reset(kind, old(selector), Cleared(kind, changed, i))
        invariant states == old(states) - Cleared(kind, changed, i)
      {
        if changed in kind.fields[i].dependsOn {
          ClearOneMore(kind, changed, i, old(selector), old(states));
          ClearField(kind, i);
        }
      }
      ClearedAll(kind, changed);
    }

    /** The loop body for a dependent field: reset it, forget its options, go on below it. */
    method ClearField(kind: Kind, i: nat)
      requires Acceptable(kind) && i < |kind.fields|
      requires Under(kind, i) <= NameSet(kind)
      modifies this
      ensures selector == Reset(kind, old(selector), Under(kind, i))
      ensures states == old(states) - Under(kind, i)
      decreases Dependents(kind, kind.fields[i].name), 1
    {
      var field := kind.fields[i];
      ResetOne(kind, selector, i);
      ResetAgain(kind, selector, {field.name}, Dependents(kind, field.name));
      RemoveAgain(states, {field.name}, Dependents(kind, field.name));
      selector := selector[field.name := FieldDefault(field)];
      states := states - {field.name};
      ClearDependentFields(kind, field.name);
    }

    /** The change handler of a selector field. */
    method ChangeField(kind: Kind, name: string, value: Value)
      requires Acceptable(kind) && name in Names(kind)
      modifies this
      ensures selector == Reset(kind, old(selector)[name := value], Dependents(kind, name))
      ensures states == old(states) - Dependents(kind, name)
    {
      selector := selector[name := value];
      ClearDependentFields(kind, name);
    }
  }

  // ---------------------------------------------------------------- The editor as an event machine

  /** An editable target: its kind, selector, and per field the request behind its discovery state. */
  datatype Target = Target(kind: Kind, selector: Selector, states: map<string, nat>)

  datatype Request = Request(target: nat, kind: Kind, field: Field, context: seq<(string, Value)>)

  datatype Status = Loading | Ready | Removing | Broken

  /** A discovery state object. Each is created with one request, whose number identifies it. */
  datatype Discovery = Discovery(status: Status, options: seq<string>)

  /** Target and request numbers grow, so they identify objects as references do. `answers`
      remembers the option list that came back for each request. */
  datatype Editor = Editor(
    targets: map<nat, Target>, nextTarget: nat,
    requests: map<nat, Request>, cells: map<nat, Discovery>, nextRequest: nat,
    answers: map<nat, seq<string>>)

  datatype Answer = Options(kind: string, field: string, options: seq<string>) | Problem

  /** Everything that can happen, in any order: edits, kind changes, rendering a provider field,
      a response arriving, and targets coming and going (adding, removing, reloading, saving). */
  datatype Event =
    | Change(target: nat, field: string, value: Value)
    | ChangeKind(target: nat, kind: Kind)
    | Render(target: nat, field: string)
    | Respond(request: nat, answer: Answer)
    | Add(kind: Kind, selector: Selector)
    | Remove(target: nat)

  ghost function SelectorDefaults(kind: Kind): Selector {
    map name | name in Names(kind) :: FieldDefault(FieldNamed(kind, name))
  }

  /** The state object currently installed for the request's field, if any. */
  predicate Current(e: Editor, request: nat)
    requires request in e.requests
  {
    var r := e.requests[request];
    r.target in e.targets && r.field.name in e.targets[r.target].states &&
      e.targets[r.target].states[r.field.name] == request
  }

  /** The server only ever delivers kinds that passed its own check. */
  ghost predicate Accepted(schema: set<Kind>) { forall kind :: kind in schema ==> Acceptable(kind) }

  /** The change handler, as EditorTarget.ChangeField performs it. */
  ghost function Changed(target: Target, name: string, value: Value): Target
    requires name in Names(target.kind)
  {
    target.(selector := Reset(target.kind, target.selector[name := value], Dependents(target.kind, name)),
            states := target.states - Dependents(target.kind, name))
  }

  /** ensureProviderOptions: keep a state whose context key still fits, else start a request. */
  ghost function Rendered(e: Editor, id: nat, name: string): Editor
    requires id in e.targets && name in Names(e.targets[id].kind)
  {
    var target := e.targets[id];
    var field := FieldNamed(target.kind, name);
    var context := Context(target.selector, field);
    if !field.fromProvider || !DependenciesHaveValues(target.selector, field) then e
    else if name in target.states && target.states[name] in e.requests &&
            e.requests[target.states[name]].context == context then e
    else e.(
      targets := e.targets[id := target.(states := target.states[name := e.nextRequest])],
      requests := e.requests[e.nextRequest := Request(id, target.kind, field, context)],
      cells := e.cells[e.nextRequest := Discovery(Loading, [])],
      nextRequest := e.nextRequest + 1)
  }

  /** loadProviderOptions after its await: a superseded state is left alone. */
  ghost function Responded(e: Editor, request: nat, answer: Answer): Editor
    requires request in e.requests
  {
    var r := e.requests[request];
    var heard := if answer.Options? then e.(answers := e.answers[request := answer.options]) else e;
    if !Current(e, request) then heard
    else if answer.Problem? || answer.kind != r.kind.kind || answer.field != r.field.name then
      heard.(cells := e.cells[request := Discovery(Broken, [])])
    else
      var value := Lookup(e.targets[r.target].selector, r.field.name);
      var status := if HasValue(value) && Shown(value) !in answer.options then Removing else Ready;
      heard.(cells := e.cells[request := Discovery(status, answer.options)])
  }

  /** One event; an event that cannot happen changes nothing. Each request is answered once. */
  ghost function Next(schema: set<Kind>, e: Editor, event: Event): Editor {
    match event
    case Change(id, name, value) =>
      if id in e.targets && e.targets[id].kind in schema && name in Names(e.targets[id].kind)
      then e.(targets := e.targets[id := Changed(e.targets[id], name, value)]) else e
    case ChangeKind(id, kind) =>
      if id in e.targets && kind in schema
      then e.(targets := e.targets[id := Target(kind, SelectorDefaults(kind), map[])]) else e
    case Render(id, name) =>
      if id in e.targets && e.targets[id].kind in schema && name in Names(e.targets[id].kind)
      then Rendered(e, id, name) else e
    case Respond(request, answer) =>
      if request in e.requests && request !in e.answers && request in e.cells && e.cells[request].status == Loading
      then Responded(e, request, answer) else e
    case Add(kind, selector) =>
      e.(targets := e.targets[e.nextTarget := Target(kind, selector, map[])], nextTarget := e.nextTarget + 1)
    case Remove(id) => e.(targets := e.targets - {id})
  }

  ghost function Run(schema: set<Kind>, e: Editor, events: seq<Event>): Editor {
    if events == [] then e else Next(schema, Run(schema, e, events[..|events| - 1]), events[|events| - 1])
  }

  const EMPTY := Editor(map[], 0, map[], map[], 0, map[])

  // ---------------------------------------------------------------- Coherence

  /** The installed state was requested with the target's present kind and dependency values, and
      its options are what came back for that very request. */
  ghost predicate Fits(e: Editor, id: nat, name: string)
    requires id in e.targets && name in e.targets[id].states
  {
    var target, request := e.targets[id], e.targets[id].states[name];
    && request in e.requests && request in e.cells
    && var r := e.requests[request];
    && r.target == id && r.kind == target.kind
    && r.field in target.kind.fields && r.field.name == name
    && r.context == Context(target.selector, r.field)
    && (e.cells[request].status.Ready? || e.cells[request].status.Removing? ==>
        request in e.answers && e.answers[request] == e.cells[request].options)
  }

  ghost predicate Coherent(e: Editor) {
    && (forall request :: request in e.requests ==> request < e.nextRequest && request in e.cells)
    && (forall request :: request in e.answers ==> request in e.requests)
    && (forall id :: id in e.targets ==> id < e.nextTarget)
    && forall id, name :: id in e.targets && name in e.targets[id].states ==> Fits(e, id, name)
  }

  /** A field that does not depend on `name` needs neither it nor any field that does. */
  lemma NeedsElsewhere(kind: Kind, name: string, i: nat, needed: string)
    requires Acceptable(kind) && i < |kind.fields| && needed in kind.fields[i].dependsOn
    requires kind.fields[i].name !in Dependents(kind, name)
    ensures needed != name && needed !in Dependents(kind, name)
  {
    var graph, field := DependencyGraph(kind), kind.fields[i];
    assert Names(kind)[i] == field.name;
    assert graph[field.name] == field.dependsOn;
    if needed == name { ReachesDirectly(graph, field.name, name); }
    if needed in Dependents(kind, name) { ReachesThrough(graph, field.name, needed, name); }
  }

  lemma ChangedElsewhere(target: Target, name: string, value: Value, other: string)
    requires name in Names(target.kind) && other != name && other !in Dependents(target.kind, name)
    ensures Lookup(Changed(target, name, value).selector, other) == Lookup(target.selector, other)
  {
  }

  lemma SameContext(first: Selector, second: Selector, field: Field)
    requires forall k :: 0 <= k < |field.dependsOn| ==>
      Lookup(first, field.dependsOn[k]) == Lookup(second, field.dependsOn[k])
    ensures Context(first, field) == Context(second, field)
  {
  }

  /** A change keeps the dependency values of every field whose state survives. */
  lemma ContextKept(target: Target, name: string, value: Value, i: nat)
    requires Acceptable(target.kind) && name in Names(target.kind) && i < |target.kind.fields|
    requires target.kind.fields[i].name !in Dependents(target.kind, name)
    ensures var field := target.kind.fields[i];
      Context(Changed(target, name, value).selector, field) == Context(target.selector, field)
  {
    var field, after := target.kind.fields[i], Changed(target, name, value).selector;
    forall k | 0 <= k < |field.dependsOn|
      ensures Lookup(after, field.dependsOn[k]) == Lookup(target.selector, field.dependsOn[k])
    {
      NeedsElsewhere(target.kind, name, i, field.dependsOn[k]);
      ChangedElsewhere(target, name, value, field.dependsOn[k]);
    }
    SameContext(after, target.selector, field);
  }

  lemma ChangeKeepsFit(e: Editor, id: nat, name: string, value: Value, other: string)
    requires Coherent(e) && id in e.targets && Acceptable(e.targets[id].kind) && name in Names(e.targets[id].kind)
    ensures other in Changed(e.targets[id], name, value).states ==>
      Fits(e.(targets := e.targets[id := Changed(e.targets[id], name, value)]), id, other)
  {
    var target := e.targets[id];
    if other in Changed(target, name, value).states {
      assert Fits(e, id, other);
      var field := e.requests[target.states[other]].field;
      var i :| 0 <= i < |target.kind.fields| && target.kind.fields[i] == field;
      ContextKept(target, name, value, i);
    }
  }

  /** Replacing one target by another whose states fit. */
  lemma TargetReplaced(e: Editor, id: nat, target: Target)
    requires Coherent(e) && id in e.targets
    requires var e' := e.(targets := e.targets[id := target]);
      forall other :: other in target.states ==> Fits(e', id, other)
    ensures Coherent(e.(targets := e.targets[id := target]))
  {
    var e' := e.(targets := e.targets[id := target]);
    forall t, other | t in e'.targets && other in e'.targets[t].states ensures Fits(e', t, other) {
      if t != id { assert Fits(e, t, other); }
    }
  }

  lemma ChangeKeepsCoherence(e: Editor, id: nat, name: string, value: Value)
    requires Coherent(e) && id in e.targets && Acceptable(e.targets[id].kind) && name in Names(e.targets[id].kind)
    ensures Coherent(e.(targets := e.targets[id := Changed(e.targets[id], name, value)]))
  {
    var changed := Changed(e.targets[id], name, value);
    forall other | other in changed.states ensures Fits(e.(targets := e.targets[id := changed]), id, other) {
      ChangeKeepsFit(e, id, name, value, other);
    }
    TargetReplaced(e, id, changed);
  }

  lemma RenderKeepsCoherence(e: Editor, id: nat, name: string)
    requires Coherent(e) && id in e.targets && name in Names(e.targets[id].kind)
    ensures Coherent(Rendered(e, id, name))
  {
    var e' := Rendered(e, id, name);
    forall t, other | t in e'.targets && other in e'.targets[t].states ensures Fits(e', t, other) {
      if t != id || other != name || e' == e { assert Fits(e, t, other); }
    }
  }

  /** Recording an answer, and what the state object becomes. */
  lemma CellSet(e: Editor, request: nat, cell: Discovery, answers: map<nat, seq<string>>)
    requires Coherent(e) && request in e.requests && request !in e.answers
    requires answers == e.answers || (request in answers && answers == e.answers[request := answers[request]])
    requires cell.status.Ready? || cell.status.Removing? ==> request in answers && answers[request] == cell.options
    ensures Coherent(e.(cells := e.cells[request := cell], answers := answers))
  {
    var e' := e.(cells := e.cells[request := cell], answers := answers);
    forall t, other | t in e'.targets && other in e'.targets[t].states ensures Fits(e', t, other) {
      assert Fits(e, t, other);
    }
  }

  lemma ResponseKeepsCoherence(e: Editor, request: nat, answer: Answer)
    requires Coherent(e) && request in e.requests && request !in e.answers && e.cells[request].status == Loading
    ensures Coherent(Responded(e, request, answer))
  {
    var e' := Responded(e, request, answer);
    CellSet(e, request, e'.cells[request], e'.answers);
    assert e' == e.(cells := e.cells[request := e'.cells[request]], answers := e'.answers);
  }

  /** Every event keeps the editor coherent. */
  lemma NextKeepsCoherence(schema: set<Kind>, e: Editor, event: Event)
    requires Accepted(schema) && Coherent(e)
    ensures Coherent(Next(schema, e, event))
  {
    var e' := Next(schema, e, event);
    match event
    case Change(id, name, value) =>
      if id in e.targets && e.targets[id].kind in schema && name in Names(e.targets[id].kind) {
        ChangeKeepsCoherence(e, id, name, value);
      }
    case Render(id, name) =>
      if id in e.targets && name in Names(e.targets[id].kind) { RenderKeepsCoherence(e, id, name); }
    case Respond(request, answer) =>
      if request in e.requests && request !in e.answers && e.cells[request].status == Loading {
        ResponseKeepsCoherence(e, request, answer);
      }
    case _ =>
      forall t, other | t in e'.targets && other in e'.targets[t].states ensures Fits(e', t, other) {
        assert Fits(e, t, other);
      }
  }

  /** In every interleaving of edits, kind changes, renderings and late responses, each stored
      discovery state fits the target's current kind and dependency values. */
  lemma {:induction false} AlwaysCoherent(schema: set<Kind>, events: seq<Event>)
    requires Accepted(schema)
    ensures Coherent(Run(schema, EMPTY, events))
  {
    if events != [] {
      AlwaysCoherent(schema, events[..|events| - 1]);
      NextKeepsCoherence(schema, Run(schema, EMPTY, events[..|events| - 1]), events[|events| - 1]);
    }
  }

  /** A response to a request whose kind or dependency values are no longer the target's is never
      installed, whatever it says: no selector, state or option list changes. */
  lemma SupersededIgnored(schema: set<Kind>, e: Editor, request: nat, answer: Answer)
    requires Coherent(e) && request in e.requests
    requires var r := e.requests[request]; r.target in e.targets ==>
      e.targets[r.target].kind != r.kind || Context(e.targets[r.target].selector, r.field) != r.context
    ensures var e' := Next(schema, e, Respond(request, answer)); e'.targets == e.targets && e'.cells == e.cells
  {
    var r := e.requests[request];
    if r.target in e.targets && r.field.name in e.targets[r.target].states {
      assert Fits(e, r.target, r.field.name);
    }
  }

  // ---------------------------------------------------------------- Validation before saving

  /** The per-field checks of validateEditor. */
  ghost predicate FieldPasses(e: Editor, id: nat, field: Field)
    requires id in e.targets
  {
    var target := e.targets[id];
    var value := Lookup(target.selector, field.name);
    && (field.required ==> HasValue(value))
    && (field.fieldType == Choice && !field.fromProvider && value != Text("") ==>
        value.Text? && value.text in field.choices)
    && (field.fieldType == Choice && field.fromProvider ==>
      && DependenciesHaveValues(target.selector, field)
      && field.name in target.states && target.states[field.name] in e.cells
      && var cell := e.cells[target.states[field.name]];
      && !cell.status.Loading? && !cell.status.Broken?
      && (value != Text("") ==> Shown(value) in cell.options))
  }

  ghost predicate EditorPasses(schema: set<Kind>, e: Editor) {
    && e.targets != map[]
    && (forall id :: id in e.targets ==> e.targets[id].kind in schema)
    && forall id :: id in e.targets ==> forall field :: field in e.targets[id].kind.fields ==> FieldPasses(e, id, field)
  }

  /** The provider answered a request for exactly this kind, field and dependency values with a
      list containing the value. */
  ghost predicate Offered(e: Editor, id: nat, field: Field)
    requires id in e.targets
  {
    exists request :: request in e.requests && request in e.answers
      && e.requests[request] == Request(id, e.targets[id].kind, field, Context(e.targets[id].selector, field))
      && Shown(Lookup(e.targets[id].selector, field.name)) in e.answers[request]
  }

  /** A provider-backed field of the target's kind with a value other than the empty text. */
  predicate Relevant(target: Target, field: Field) {
    && field in target.kind.fields && field.fieldType == Choice && field.fromProvider
    && Lookup(target.selector, field.name) != Text("")
  }

  lemma CoherentOffer(e: Editor, id: nat, field: Field)
    requires Coherent(e) && id in e.targets && UniqueNames(e.targets[id].kind) && field in e.targets[id].kind.fields
    requires FieldPasses(e, id, field) && Relevant(e.targets[id], field)
    ensures Offered(e, id, field)
  {
    assert Fits(e, id, field.name);
    var kind, request := e.targets[id].kind, e.targets[id].states[field.name];
    var i :| 0 <= i < |kind.fields| && kind.fields[i] == field;
    var j :| 0 <= j < |kind.fields| && kind.fields[j] == e.requests[request].field;
    assert Names(kind)[i] == Names(kind)[j];
    assert e.requests[request] == Request(id, kind, field, Context(e.targets[id].selector, field));
  }

  /** When validateEditor finds nothing to complain about after any run, every non-empty
      provider-backed value was offered for the current kind and dependency values. */
  lemma PassedValuesWereOffered(schema: set<Kind>, events: seq<Event>)
    requires Accepted(schema)
    ensures var e := Run(schema, EMPTY, events);
      EditorPasses(schema, e) ==> forall id, field :: id in e.targets && Relevant(e.targets[id], field) ==>
        Offered(e, id, field)
  {
    AlwaysCoherent(schema, events);
    var e := Run(schema, EMPTY, events);
    if EditorPasses(schema, e) {
      forall id, field | id in e.targets && Relevant(e.targets[id], field) ensures Offered(e, id, field) {
        assert FieldPasses(e, id, field);
        CoherentOffer(e, id, field);
      }
    }
  }

  // ---------------------------------------------------------------- What each event does

  /** The request still waits for its answer, and its state object is the one installed. */
  predicate Awaited(e: Editor, request: nat) {
    && request in e.requests && request !in e.answers && request in e.cells && e.cells[request].status == Loading
    && Current(e, request)
  }

  predicate Matching(r: Request, answer: Answer) {
    answer.Options? && answer.kind == r.kind.kind && answer.field == r.field.name
  }

  /** The answer to an awaited request, in every reachable state. A matching one installs its options;
      the field's state is then Removing exactly when the field has a value that this newest answer
      for the present kind and dependency values does not offer, and otherwise Ready. Anything else
      leaves the state Broken. No selector changes. */
  lemma AnswerInstalled(schema: set<Kind>, events: seq<Event>, request: nat, answer: Answer)
    requires Accepted(schema) && Awaited(Run(schema, EMPTY, events), request)
    ensures var e := Run(schema, EMPTY, events);
      var e', r := Next(schema, e, Respond(request, answer)), e.requests[request];
      var value := Lookup(e.targets[r.target].selector, r.field.name);
      && e'.targets == e.targets && r.target in e.targets
      && r == Request(r.target, e.targets[r.target].kind, r.field, Context(e.targets[r.target].selector, r.field))
      && (if Matching(r, answer) then
            && e'.answers[request] == answer.options && e'.cells[request].options == answer.options
            && (e'.cells[request].status == Removing <==> HasValue(value) && Shown(value) !in answer.options)
            && (e'.cells[request].status == Ready <==> !HasValue(value) || Shown(value) in answer.options)
          else e'.cells[request] == Discovery(Broken, []))
  {
    AlwaysCoherent(schema, events);
    var e := Run(schema, EMPTY, events);
    var r := e.requests[request];
    assert Fits(e, r.target, r.field.name);
  }

  /** After a matching answer the field passes its check before saving exactly when its value is
      empty or offered, provided the fields it depends on have values; after any other answer never. */
  lemma AnswerDecides(schema: set<Kind>, events: seq<Event>, request: nat, answer: Answer)
    requires Accepted(schema) && Awaited(Run(schema, EMPTY, events), request)
    requires var r := Run(schema, EMPTY, events).requests[request];
      r.field.fieldType == Choice && r.field.fromProvider && !r.field.required &&
      DependenciesHaveValues(Run(schema, EMPTY, events).targets[r.target].selector, r.field)
    ensures var e := Run(schema, EMPTY, events);
      var e', r := Next(schema, e, Respond(request, answer)), e.requests[request];
      var value := Lookup(e.targets[r.target].selector, r.field.name);
      FieldPasses(e', r.target, r.field) <==>
        Matching(r, answer) && (value == Text("") || Shown(value) in answer.options)
  {
    AnswerInstalled(schema, events, request, answer);
  }

  /** A change event stores the value, resets exactly the transitive dependents and forgets their
      states, and touches nothing else. */
  lemma ChangeStores(schema: set<Kind>, e: Editor, id: nat, name: string, value: Value)
    requires id in e.targets && Acceptable(e.targets[id].kind) && e.targets[id].kind in schema
    requires name in Names(e.targets[id].kind)
    ensures var e' := Next(schema, e, Change(id, name, value));
      var before, dependents := e.targets[id], Dependents(e.targets[id].kind, name);
      && id in e'.targets && e' == e.(targets := e.targets[id := e'.targets[id]]) && e'.targets[id].kind == before.kind
      && Lookup(e'.targets[id].selector, name) == value
      && (forall other :: other in dependents ==>
        Lookup(e'.targets[id].selector, other) == FieldDefault(FieldNamed(before.kind, other)) &&
        other !in e'.targets[id].states)
      && (forall other :: other != name && other !in dependents ==>
        Lookup(e'.targets[id].selector, other) == Lookup(before.selector, other))
      && (forall other :: other !in dependents ==>
        (other in e'.targets[id].states <==> other in before.states) &&
        (other in before.states ==> e'.targets[id].states[other] == before.states[other]))
  {
    NotOwnDependent(e.targets[id].kind, name);
  }

  lemma NotOwnDependent(kind: Kind, name: string)
    requires Acceptable(kind)
    ensures name !in Dependents(kind, name)
  {
    if Reaches(DependencyGraph(kind), name, name) { assert Cyclic(DependencyGraph(kind)); }
  }

  /** A kind change gives the new kind, every field at its default, and no discovery state. */
  lemma ChangeKindResets(schema: set<Kind>, e: Editor, id: nat, kind: Kind)
    requires id in e.targets && kind in schema
    ensures var e' := Next(schema, e, ChangeKind(id, kind));
      && id in e'.targets && e' == e.(targets := e.targets[id := e'.targets[id]])
      && e'.targets[id].kind == kind && e'.targets[id].states == map[]
      && forall name :: name in Names(kind) ==>
        Lookup(e'.targets[id].selector, name) == FieldDefault(FieldNamed(kind, name))
  {
  }

  /** The default of a field passes its own checks, or is empty: a local choice is one of its
      choices, and a provider-backed field is empty, so nothing can be asked for below it. */
  lemma DefaultFits(field: Field)
    ensures var value := FieldDefault(field);
      match field.fieldType
      case Boolean => value == Flag(false)
      case Integer => value == Number(0)
      case _ =>
        if field.fromProvider || field.choices == [] then value == Text("") && !HasValue(value)
        else value.Text? && value.text in field.choices
  {
  }

  /** Rendering asks the provider exactly for a provider-backed field whose dependencies have values
      and whose installed state was asked with other ones; then a loading state for the present
      values is installed under a new number, and else nothing changes. */
  lemma RenderAsks(schema: set<Kind>, e: Editor, id: nat, name: string)
    requires Coherent(e) && id in e.targets && e.targets[id].kind in schema && name in Names(e.targets[id].kind)
    ensures var e', target := Next(schema, e, Render(id, name)), e.targets[id];
      var field := FieldNamed(target.kind, name);
      var asked := Request(id, target.kind, field, Context(target.selector, field));
      var fits := name in target.states && e.requests[target.states[name]].context == asked.context;
      if field.fromProvider && DependenciesHaveValues(target.selector, field) && !fits then
        && id in e'.targets && e'.targets[id] == target.(states := target.states[name := e.nextRequest])
        && e'.requests == e.requests[e.nextRequest := asked] && e.nextRequest !in e.requests
        && e'.cells == e.cells[e.nextRequest := Discovery(Loading, [])]
        && e'.answers == e.answers && Awaited(e', e.nextRequest)
      else e' == e
  {
    if name in e.targets[id].states { assert Fits(e, id, name); }
  }

  /** What saving promises about every other field: required values are there, and local choices are listed. */
  lemma PassedFieldsAreFilled(schema: set<Kind>, e: Editor, id: nat, field: Field)
    requires EditorPasses(schema, e) && id in e.targets && field in e.targets[id].kind.fields
    ensures var value := Lookup(e.targets[id].selector, field.name);
      && (field.required ==> value != Text("") && value != Null && value != Undefined)
      && (field.fieldType == Choice && !field.fromProvider ==>
        value == Text("") || (value.Text? && value.text in field.choices))
  {
    assert FieldPasses(e, id, field);
  }
}
