/** Target catalogues: models, the in-memory repository and the SQLite repository
    (src/snarkyctl/targets). */
module Catalogue {
  import opened Prelude
  import opened NordVpn

  datatype StoredTarget = StoredTarget(alias: string, title: string, position: nat, selector: Selector)

  datatype TargetCatalogue = TargetCatalogue(provider: string, revision: nat, targets: seq<StoredTarget>)

  datatype RepositoryError = CatalogConflict | InvalidCatalog | StorageFailed | ReadOnlyRepository | ValidationFailed

  const MAX_TARGETS := 100
  const MAX_SELECTOR_JSON := 4096

  /** validate_order: at most 100 targets, unique aliases, positions counting from zero. */
  predicate ValidOrder(targets: seq<StoredTarget>) {
    && |targets| <= MAX_TARGETS
    && (forall i, j :: 0 <= i < j < |targets| ==> targets[i].alias != targets[j].alias)
    && forall i :: 0 <= i < |targets| ==> targets[i].position == i
  }

  // ---------------------------------------------------------------- Specification

  /** Catalogues by provider. */
  type Store = map<string, TargetCatalogue>

  ghost predicate ValidStore(store: Store) {
    forall provider :: provider in store ==> store[provider].provider == provider && ValidOrder(store[provider].targets)
  }

  /** The provider's catalogue, or the empty one of revision zero. */
  function Current(store: Store, provider: string): TargetCatalogue {
    if provider in store then store[provider] else TargetCatalogue(provider, 0, [])
  }

  /** Optimistic replacement: the new store and the answer. */
  function Replace(store: Store, provider: string, expected: nat, targets: seq<StoredTarget>)
      : (Store, Result<TargetCatalogue, RepositoryError>)
  {
    var candidate := TargetCatalogue(provider, expected + 1, targets);
    if !ValidOrder(targets) then (store, Err(ValidationFailed))
    else if Current(store, provider).revision != expected then (store, Err(CatalogConflict))
    else (store[provider := candidate], Ok(candidate))
  }

  /** No update is lost: of two replacements against the same revision at most one succeeds,
      the other sees a conflict; a success adds one to the revision of that provider only. */
  lemma NoLostUpdate(store: Store, provider: string, expected: nat, first: seq<StoredTarget>, second: seq<StoredTarget>)
    requires ValidStore(store)
    ensures var (after, answer) := Replace(store, provider, expected, first);
      ValidStore(after) &&
      (answer.Ok? ==>
        && Current(after, provider).revision == Current(store, provider).revision + 1
        && Current(after, provider).targets == first
        && (forall other :: other != provider ==> Current(after, other) == Current(store, other))
        && Replace(after, provider, expected, second).1.Err?) &&
      (answer.Err? ==> after == store)
  {
  }

  /** Exactly when a replacement succeeds, what it then stores, and which refusal comes otherwise. A
      provider without a catalogue is at revision zero. */
  lemma ReplaceExactly(store: Store, provider: string, expected: nat, targets: seq<StoredTarget>)
    ensures var (after, answer) := Replace(store, provider, expected, targets);
      var current := if provider in store then store[provider].revision else 0;
      var candidate := TargetCatalogue(provider, expected + 1, targets);
      && (answer.Ok? <==> ValidOrder(targets) && expected == current)
      && (answer.Ok? ==> answer.value == candidate && after == store[provider := candidate])
      && (answer == Err(ValidationFailed) <==> !ValidOrder(targets))
      && (answer == Err(CatalogConflict) <==> ValidOrder(targets) && expected != current)
  {
  }

  // ---------------------------------------------------------------- MemoryTargetRepository

  class MemoryRepository {
    var catalogues: Store

    constructor (catalogues: Store)
      requires ValidStore(catalogues)
      ensures this.catalogues == catalogues
    {
      this.catalogues := catalogues;
    }

    method GetCatalogue(provider: string) returns (catalogue: TargetCatalogue)
      ensures catalogue == Current(catalogues, provider)
      ensures provider in catalogues ==> catalogue == catalogues[provider]
      ensures provider !in catalogues ==> catalogue == TargetCatalogue(provider, 0, [])
    {
      if provider in catalogues { return catalogues[provider]; }
      return TargetCatalogue(provider, 0, []);
    }

    method ReplaceCatalogue(provider: string, expected: nat, targets: seq<StoredTarget>)
        returns (result: Result<TargetCatalogue, RepositoryError>)
      modifies this
      ensures (catalogues, result) == Replace(old(catalogues), provider, expected, targets)
    {
      if !ValidOrder(targets) { return Err(ValidationFailed); }
      var candidate := TargetCatalogue(provider, expected + 1, targets);
      var current := GetCatalogue(provider);
      if current.revision != expected { return Err(CatalogConflict); }
      catalogues := catalogues[provider := candidate];
      return Ok(candidate);
    }
  }

  // ---------------------------------------------------------------- Tables

  datatype Row = Row(provider: string, alias: string, title: string, position: nat, selectorJson: string)

  /** provider_catalogues and targets. */
  datatype Tables = Tables(catalogues: map<string, nat>, targets: set<Row>)

  function RowsOf(targets: set<Row>, provider: string): set<Row> {
    set row | row in targets && row.provider == provider
  }

  /** PRIMARY KEY (provider, alias), UNIQUE (provider, position), the foreign key and the length check. */
  predicate Admits(tables: Tables, row: Row) {
    && row.provider in tables.catalogues
    && |row.selectorJson| <= MAX_SELECTOR_JSON
    && forall other :: other in tables.targets && other.provider == row.provider ==>
      other.alias != row.alias && other.position != row.position
  }

  function RowOf(encode: Selector -> string, provider: string, target: StoredTarget): Row {
    Row(provider, target.alias, target.title, target.position, encode(target.selector))
  }

  function RowsFor(encode: Selector -> string, provider: string, targets: seq<StoredTarget>): set<Row> {
    set target | target in targets :: RowOf(encode, provider, target)
  }

  predicate PositionsUnique(rows: set<Row>) {
    forall row, other :: row in rows && other in rows && row.position == other.position ==> row == other
  }

  /** Rows listed by strictly increasing position. */
  predicate Ordered(rows: seq<Row>) {
    forall i, j :: 0 <= i < j < |rows| ==> rows[i].position < rows[j].position
  }

  /** When the first rows are the first targets, the next row is a later target's. */
  lemma RowHasTarget(encode: Selector -> string, provider: string, targets: seq<StoredTarget>, rows: seq<Row>, i: nat)
    requires ValidOrder(targets) && Ordered(rows) && i < |rows| && i <= |targets|
    requires rows[i] in RowsFor(encode, provider, targets)
    requires forall k :: 0 <= k < i ==> rows[k] == RowOf(encode, provider, targets[k])
    ensures i < |targets| && rows[i].position >= i
  {
    var target :| target in targets && rows[i] == RowOf(encode, provider, target);
    var at :| 0 <= at < |targets| && targets[at] == target;
    if i > 0 { assert rows[i - 1].position == i - 1 < rows[i].position; }
  }

  /** And the next target's row is no later one. */
  lemma TargetHasRow(encode: Selector -> string, provider: string, targets: seq<StoredTarget>, rows: seq<Row>, i: nat)
    requires ValidOrder(targets) && Ordered(rows) && i < |rows| && i < |targets|
    requires RowOf(encode, provider, targets[i]) in rows && rows[i].position >= i
    requires forall k :: 0 <= k < i ==> rows[k] == RowOf(encode, provider, targets[k])
    ensures rows[i] == RowOf(encode, provider, targets[i])
  {
    var next := RowOf(encode, provider, targets[i]);
    var place :| 0 <= place < |rows| && rows[place] == next;
    assert next.position == i;
    assert forall k :: 0 <= k < i ==> rows[k].position == k;
  }

  /** Ordering the rows of a valid catalogue gives its targets back in order. */
  lemma {:induction false} OrderedRowsAre(encode: Selector -> string, provider: string, targets: seq<StoredTarget>,
      rows: seq<Row>, i: nat)
    requires ValidOrder(targets) && Ordered(rows) && i <= |rows|
    requires forall row :: row in rows <==> row in RowsFor(encode, provider, targets)
    ensures i <= |targets| && forall k :: 0 <= k < i ==> rows[k] == RowOf(encode, provider, targets[k])
    decreases i
  {
    if i > 0 {
      OrderedRowsAre(encode, provider, targets, rows, i - 1);
      assert rows[i - 1] in rows;
      RowHasTarget(encode, provider, targets, rows, i - 1);
      assert RowOf(encode, provider, targets[i - 1]) in RowsFor(encode, provider, targets);
      TargetHasRow(encode, provider, targets, rows, i - 1);
    }
  }

  lemma OrderedRowsCount(encode: Selector -> string, provider: string, targets: seq<StoredTarget>, rows: seq<Row>)
    requires ValidOrder(targets) && Ordered(rows)
    requires forall row :: row in rows <==> row in RowsFor(encode, provider, targets)
    ensures |rows| == |targets| && forall k :: 0 <= k < |rows| ==> rows[k] == RowOf(encode, provider, targets[k])
  {
    OrderedRowsAre(encode, provider, targets, rows, |rows|);
    if targets != [] {
      var final := targets[|targets| - 1];
      assert final in targets && RowOf(encode, provider, final) in rows;
      var place :| 0 <= place < |rows| && rows[place] == RowOf(encode, provider, final);
      assert rows[place].position == place;
    }
  }

  lemma {:induction false} LowestRow(rows: set<Row>)
    requires rows != {}
    ensures exists low :: low in rows && forall row :: row in rows ==> low.position <= row.position
    decreases rows
  {
    var row :| row in rows;
    if rows != {row} {
      LowestRow(rows - {row});
      var low :| low in rows - {row} && forall other :: other in rows - {row} ==> low.position <= other.position;
      var lower := if row.position < low.position then row else low;
      assert forall other :: other in rows ==> lower.position <= other.position;
    }
  }

  // ---------------------------------------------------------------- SqliteTargetRepository

  /** Target rows exist only for providers with a catalogue row, and are exactly the encoded
      targets of a valid catalogue. */
  ghost predicate Represents(encode: Selector -> string, tables: Tables, contents: Store) {
    && ValidStore(contents) && contents.Keys == tables.catalogues.Keys
    && (forall row :: row in tables.targets ==> row.provider in tables.catalogues)
    && forall provider :: provider in contents ==>
      tables.catalogues[provider] == contents[provider].revision &&
      RowsOf(tables.targets, provider) == RowsFor(encode, provider, contents[provider].targets)
  }

  /** `encode` and `decode` stand for the JSON codec. On a repository that is not `reliable` any
      statement may fail with a storage error. `contents` is what the tables mean. */
  class SqliteRepository {
    var tables: Tables
    const encode: Selector -> string
    const decode: string -> Option<Selector>
    const reliable: bool
    ghost var contents: Store

    ghost predicate Valid()
      reads this
    {
      (forall selector :: decode(encode(selector)) == Some(selector)) && Represents(encode, tables, contents)
    }

    constructor Initialize(encode: Selector -> string, decode: string -> Option<Selector>, reliable: bool)
      requires forall selector :: decode(encode(selector)) == Some(selector)
      ensures Valid() && contents == map[]
      ensures this.encode == encode && this.decode == decode && this.reliable == reliable
    {
      this.encode, this.decode, this.reliable := encode, decode, reliable;
      tables, contents := Tables(map[], {}), map[];
    }

    predicate Oversized(targets: seq<StoredTarget>)
      reads this
    {
      exists target :: target in targets && |encode(target.selector)| > MAX_SELECTOR_JSON
    }

    /** SELECT ... ORDER BY position */
    method SelectTargets(provider: string) returns (rows: seq<Row>)
      requires PositionsUnique(RowsOf(tables.targets, provider))
      ensures Ordered(rows) && forall row :: row in rows <==> row in RowsOf(tables.targets, provider)
    {
      rows := [];
      var left := set row | row in tables.targets && row.provider == provider;
      ghost var all := left;
      while left != {}
        invariant left <= all && Ordered(rows)
        invariant forall row :: row in rows <==> row in all - left
        invariant forall row, other :: row in rows && other in left ==> row.position < other.position
        decreases left
      {
        LowestRow(left);
        var low :| low in left && forall row :: row in left ==> low.position <= row.position;
        left := left - {low};
        rows := rows + [low];
      }
    }

    /** get_catalogue, with no other writer between its two statements. */
    method GetCatalogue(provider: string) returns (result: Result<TargetCatalogue, RepositoryError>)
      requires Valid()
      ensures result == Ok(Current(contents, provider)) || (result == Err(StorageFailed) && !reliable)
    {
      var works: bool := *;
      if !works && !reliable { return Err(StorageFailed); }
      if provider !in tables.catalogues { return Ok(TargetCatalogue(provider, 0, [])); }
      PositionsIdentify(provider);
      var rows := SelectTargets(provider);
      OrderedRowsCount(encode, provider, contents[provider].targets, rows);
      var targets: seq<StoredTarget> := [];
      for i := 0 to |rows|
        invariant targets == contents[provider].targets[..i]
      {
        var selector := decode(rows[i].selectorJson);
        if selector.None? { return Err(StorageFailed); }
        targets := targets + [StoredTarget(rows[i].alias, rows[i].title, rows[i].position, selector.value)];
      }
      assert targets == contents[provider].targets;
      if !ValidOrder(targets) { return Err(StorageFailed); }
      return Ok(TargetCatalogue(provider, tables.catalogues[provider], targets));
    }

    lemma PositionsIdentify(provider: string)
      requires Valid() && provider in contents
      ensures PositionsUnique(RowsOf(tables.targets, provider))
    {
    }

    /** The INSERT statements, row by row; no constraint refuses a validated target. */
    method InsertTargets(work: Tables, provider: string, targets: seq<StoredTarget>) returns (after: Tables, ok: bool)
      requires ValidOrder(targets) && !Oversized(targets) && provider in work.catalogues &&
        RowsOf(work.targets, provider) == {}
      ensures ok ==> after == Tables(work.catalogues, work.targets + RowsFor(encode, provider, targets))
      ensures ok || !reliable
    {
      after := work;
      for i := 0 to |targets|
        invariant after.catalogues == work.catalogues
        invariant after.targets == work.targets + RowsFor(encode, provider, targets[..i])
      {
        var row := RowOf(encode, provider, targets[i]);
        var inserts: bool := *;
        assert targets[i] in targets;
        AdmitsNext(encode, after, work.targets, provider, targets, i);
        if !Admits(after, row) || (!inserts && !reliable) { return after, false; }
        after := after.(targets := after.targets + {row});
        assert targets[..i + 1] == targets[..i] + [targets[i]];
      }
      assert targets[..|targets|] == targets;
      ok := true;
    }

    /** replace_catalogue: one transaction. The statements work on a copy that replaces the tables
        only at the commit, so a failure anywhere leaves them, and what they mean, unchanged. */
    method ReplaceCatalogue(provider: string, expected: nat, targets: seq<StoredTarget>)
        returns (result: Result<TargetCatalogue, RepositoryError>)
      requires Valid()
      modifies this
      ensures Valid()
      ensures result.Err? ==> tables == old(tables) && contents == old(contents)
      ensures ValidOrder(targets) && old(Oversized(targets)) ==> result == Err(InvalidCatalog)
      ensures !(ValidOrder(targets) && old(Oversized(targets))) ==>
        (contents, result) == Replace(old(contents), provider, expected, targets) ||
          (result == Err(StorageFailed) && !reliable)
    {
      if !ValidOrder(targets) { return Err(ValidationFailed); }
      var candidate := TargetCatalogue(provider, expected + 1, targets);
      if Oversized(targets) { return Err(InvalidCatalog); }
      var begins: bool, writes: bool, commits: bool := *, *, *;
      if !begins && !reliable { return Err(StorageFailed); }
      var work := tables;
      var revision := if provider in work.catalogues then work.catalogues[provider] else 0;
      if revision != expected { return Err(CatalogConflict); }
      if provider in work.catalogues {
        work := Tables(work.catalogues[provider := candidate.revision], work.targets - RowsOf(work.targets, provider));
      } else {
        work := work.(catalogues := work.catalogues[provider := candidate.revision]);
      }
      if !writes && !reliable { return Err(StorageFailed); }
      ghost var kept := work.targets;
      assert RowsOf(kept, provider) == {};
      var inserted: bool;
      work, inserted := InsertTargets(work, provider, targets);
      if !inserted { return Err(StorageFailed); }
      if !commits && !reliable { return Err(StorageFailed); }
      CommitRepresents(encode, tables, contents, kept, work, candidate);
      tables := work;
      contents := contents[provider := candidate];
      return Ok(candidate);
    }
  }

  /** No constraint ever refuses a validated target. */
  lemma AdmitsNext(encode: Selector -> string, work: Tables, kept: set<Row>, provider: string,
      targets: seq<StoredTarget>, i: nat)
    requires ValidOrder(targets) && i < |targets| && provider in work.catalogues
    requires RowsOf(kept, provider) == {} && work.targets == kept + RowsFor(encode, provider, targets[..i])
    requires |encode(targets[i].selector)| <= MAX_SELECTOR_JSON
    ensures Admits(work, RowOf(encode, provider, targets[i]))
  {
    forall other | other in work.targets && other.provider == provider
      ensures other.alias != targets[i].alias && other.position != targets[i].position
    {
      assert other !in RowsOf(kept, provider);
      var target :| target in targets[..i] && other == RowOf(encode, provider, target);
      var k :| 0 <= k < i && targets[k] == target;
    }
  }

  lemma OnlyProviderChanged(encode: Selector -> string, before: set<Row>, kept: set<Row>, after: set<Row>,
      provider: string, targets: seq<StoredTarget>)
    requires kept == before - RowsOf(before, provider) || (kept == before && RowsOf(before, provider) == {})
    requires after == kept + RowsFor(encode, provider, targets)
    ensures RowsOf(after, provider) == RowsFor(encode, provider, targets)
    ensures forall other :: other != provider ==> RowsOf(after, other) == RowsOf(before, other)
  {
    forall other | other != provider ensures RowsOf(after, other) == RowsOf(before, other) {
      forall row ensures row in RowsOf(after, other) <==> row in RowsOf(before, other) {}
    }
  }

  /** Committing the rows of a new catalogue. */
  lemma CommitRepresents(encode: Selector -> string, before: Tables, contents: Store, kept: set<Row>, after: Tables,
      candidate: TargetCatalogue)
    requires Represents(encode, before, contents) && ValidOrder(candidate.targets)
    requires var provider := candidate.provider;
      kept == before.targets - RowsOf(before.targets, provider) ||
        (kept == before.targets && RowsOf(before.targets, provider) == {})
    requires after ==
      Tables(before.catalogues[candidate.provider := candidate.revision],
        kept + RowsFor(encode, candidate.provider, candidate.targets))
    ensures Represents(encode, after, contents[candidate.provider := candidate])
  {
    OnlyProviderChanged(encode, before.targets, kept, after.targets, candidate.provider, candidate.targets);
  }

  // ---------------------------------------------------------------- Refinement over whole runs

  datatype Operation = Get(provider: string) | Put(provider: string, expected: nat, targets: seq<StoredTarget>)

  /** What the specification does with one operation: the new store and the answer. */
  function Perform(store: Store, operation: Operation): (Store, Result<TargetCatalogue, RepositoryError>) {
    match operation
    case Get(provider) => (store, Ok(Current(store, provider)))
    case Put(provider, expected, targets) => Replace(store, provider, expected, targets)
  }

  /** The store after those operations that are shown to the specification, in order. */
  function After(store: Store, operations: seq<Operation>, shown: seq<bool>): Store
    requires |shown| == |operations|
  {
    if operations == [] then store
    else
      var last := |operations| - 1;
      var before := After(store, operations[..last], shown[..last]);
      if shown[last] then Perform(before, operations[last]).0 else before
  }

  lemma AfterSnoc(store: Store, operations: seq<Operation>, shown: seq<bool>, i: nat)
    requires i < |operations| == |shown|
    ensures After(store, operations[..i + 1], shown[..i + 1]) ==
      var before := After(store, operations[..i], shown[..i]);
      if shown[i] then Perform(before, operations[i]).0 else before
  {
    assert operations[..i + 1][..i] == operations[..i] && shown[..i + 1][..i] == shown[..i];
  }

  /** Every selector that the operation would store fits the bound on its JSON text. */
  ghost predicate Fits(encode: Selector -> string, operation: Operation) {
    operation.Put? ==> forall target :: target in operation.targets ==> |encode(target.selector)| <= MAX_SELECTOR_JSON
  }

  /** SQLite may decline an operation for reasons of its own. */
  ghost predicate Declined(
    sqlite: SqliteRepository, operation: Operation, answer: Result<TargetCatalogue, RepositoryError>)
  {
    || (answer == Err(StorageFailed) && !sqlite.reliable)
    || (answer == Err(InvalidCatalog) && !Fits(sqlite.encode, operation))
  }

  /** The answers of SQLite to the operations, against the specification that sees the shown ones. */
  ghost predicate Refines(
    sqlite: SqliteRepository, store: Store, operations: seq<Operation>, shown: seq<bool>,
    stored: seq<Result<TargetCatalogue, RepositoryError>>, n: nat)
    requires n <= |operations| == |shown| && n <= |stored|
  {
    forall i :: 0 <= i < n ==>
      if shown[i] then stored[i] == Perform(After(store, operations[..i], shown[..i]), operations[i]).1
      else Declined(sqlite, operations[i], stored[i])
  }

  /** One operation on SQLite: the specification's answer and store, or declined without effect. */
  method RunStored(sqlite: SqliteRepository, operation: Operation)
      returns (result: Result<TargetCatalogue, RepositoryError>, ghost shown: bool)
    requires sqlite.Valid()
    modifies sqlite
    ensures sqlite.Valid()
    ensures shown <==> result != Err(StorageFailed) && result != Err(InvalidCatalog)
    ensures shown ==> (sqlite.contents, result) == Perform(old(sqlite.contents), operation)
    ensures !shown ==> sqlite.contents == old(sqlite.contents) && Declined(sqlite, operation, result)
    ensures sqlite.reliable && Fits(sqlite.encode, operation) ==> shown
  {
    match operation {
      case Get(provider) =>
        result := sqlite.GetCatalogue(provider);
        shown := result != Err(StorageFailed);
      case Put(provider, expected, targets) =>
        ghost var oversized := sqlite.Oversized(targets);
        result := sqlite.ReplaceCatalogue(provider, expected, targets);
        shown := result != Err(StorageFailed) && result != Err(InvalidCatalog);
        assert result == Err(InvalidCatalog) ==> oversized;
    }
  }

  method RunMemory(memory: MemoryRepository, operation: Operation)
      returns (result: Result<TargetCatalogue, RepositoryError>)
    modifies memory
    ensures (memory.catalogues, result) == Perform(old(memory.catalogues), operation)
  {
    match operation {
      case Get(provider) =>
        var found := memory.GetCatalogue(provider);
        result := Ok(found);
      case Put(provider, expected, targets) =>
        result := memory.ReplaceCatalogue(provider, expected, targets);
    }
  }

  /** SQLite refines memory. Both repositories are driven by the same operations, starting with the
      same contents; those that SQLite declines are not shown to memory. Every shown operation is
      answered alike by both, with the answer of the specification after the shown ones before it,
      and both end with the contents of the specification. With reliable storage and selectors
      within the bound every operation is shown. */
  method Lockstep(memory: MemoryRepository, sqlite: SqliteRepository, operations: seq<Operation>)
      returns (answers: seq<Option<Result<TargetCatalogue, RepositoryError>>>,
               stored: seq<Result<TargetCatalogue, RepositoryError>>, ghost shown: seq<bool>)
    requires sqlite.Valid() && memory.catalogues == sqlite.contents
    modifies memory, sqlite
    ensures sqlite.Valid() && |answers| == |stored| == |shown| == |operations|
    ensures memory.catalogues == sqlite.contents == After(old(sqlite.contents), operations, shown)
    ensures Refines(sqlite, old(sqlite.contents), operations, shown, stored, |operations|)
    ensures forall i :: 0 <= i < |operations| ==> answers[i] == if shown[i] then Some(stored[i]) else None
    ensures sqlite.reliable && (forall i :: 0 <= i < |operations| ==> Fits(sqlite.encode, operations[i])) ==>
      false !in shown
  {
    answers, stored := [], [];
    shown := seq(|operations|, i => false);
    ghost var start := sqlite.contents;
    for i := 0 to |operations|
      invariant sqlite.Valid() && |answers| == |stored| == i && |shown| == |operations|
      invariant memory.catalogues == sqlite.contents == After(start, operations[..i], shown[..i])
      invariant Refines(sqlite, start, operations, shown, stored, i)
      invariant forall k :: 0 <= k < i ==> answers[k] == if shown[k] then Some(stored[k]) else None
      invariant sqlite.reliable && (forall k :: 0 <= k < |operations| ==> Fits(sqlite.encode, operations[k])) ==>
        false !in shown[..i]
    {
      ghost var seen := shown;
      var result: Result<TargetCatalogue, RepositoryError>;
      ghost var agreed: bool;
      result, agreed := RunStored(sqlite, operations[i]);
      var answer: Option<Result<TargetCatalogue, RepositoryError>> := None;
      if result != Err(StorageFailed) && result != Err(InvalidCatalog) {
        var remembered := RunMemory(memory, operations[i]);
        answer := Some(remembered);
      }
      shown := shown[i := agreed];
      assert forall k :: 0 <= k <= i ==> shown[..k] == seen[..k];
      AfterSnoc(start, operations, shown, i);
      answers, stored := answers + [answer], stored + [result];
      assert shown[..i + 1] == shown[..i] + [agreed];
    }
    assert operations[..|operations|] == operations && shown[..|operations|] == shown;
  }
}
