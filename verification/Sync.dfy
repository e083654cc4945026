/** Synchronizing edited workflows and scenarios: batches as transactions
    (runner-v2/pkg/sync/service.go) over rows guarded by version
    (runner-v2/pkg/db/mysql/client.go). */
module Sync {
  import opened Basics

  datatype Row = Row(version: int, deleted: bool, content: string)

  type Table = map<string, Row>

  datatype Store = Store(workflows: Table, scenarios: Table)

  datatype Entity = Workflow | Scenario | UnknownEntity

  datatype Kind = Insert | Update | Delete | UnknownKind

  /** The decoded payload of an insert or update. */
  datatype Data = Data(id: string, content: string, deleted: bool)

  /** `data` is None when the payload cannot be decoded; `readOk` and `writeOk` say whether
      the SELECT and the INSERT or UPDATE of the change go through, if it comes to them. */
  datatype Change = Change(
    entity: Entity, kind: Kind, entityId: string, data: Option<Data>, clientVersion: int, readOk: bool, writeOk: bool)

  datatype Outcome = Applied | Conflict(id: string, clientVersion: int, currentVersion: int) | Skipped | Error

  // ---- Rows guarded by version --------------------------------------------------------

  /** `SELECT ... WHERE id = ? AND is_deleted = 0`. */
  predicate Live(t: Table, id: string) {
    id in t && !t[id].deleted
  }

  /** The guard `version = ? AND is_deleted = 0` of UpdateWorkflowIfVersion,
      DeleteWorkflowIfVersion and the two scenario statements. */
  predicate AtVersion(t: Table, id: string, base: int) {
    Live(t, id) && t[id].version == base
  }

  /** What the SELECT of the change finds: nothing, too, when it fails. */
  predicate Sees(t: Table, ch: Change, id: string) {
    ch.readOk && Live(t, id)
  }

  /** One change against its own table. */
  function ChangeTable(t: Table, ch: Change): (Table, Outcome) {
    match ch.kind
    case Insert =>
      if ch.data.None? then (t, Error)
      else
        var d := ch.data.value;
        if Sees(t, ch, d.id) then (t, Conflict(d.id, ch.clientVersion, t[d.id].version))
        else if !ch.writeOk then (t, Error)
        else (t[d.id := Row(1, d.deleted, d.content)], Applied)
    case Update =>
      if ch.data.None? || !ch.writeOk then (t, Error)
      else
        var d := ch.data.value;
        if AtVersion(t, d.id, ch.clientVersion) then (t[d.id := Row(ch.clientVersion + 1, d.deleted, d.content)], Applied)
        else if Sees(t, ch, d.id) then (t, Conflict(d.id, ch.clientVersion, t[d.id].version))
        else (t, Error)
    case Delete =>
      var id := ch.entityId;
      if !ch.writeOk then (t, Error)
      else if AtVersion(t, id, ch.clientVersion) then
        (t[id := t[id].(deleted := true, version := t[id].version + 1)], Applied)
      else if Sees(t, ch, id) then (t, Conflict(id, ch.clientVersion, t[id].version))
      else (t, Skipped)
    case UnknownKind => (t, Error)
  }

  function TableOf(s: Store, e: Entity): Table {
    match e
    case Workflow => s.workflows
    case Scenario => s.scenarios
    case UnknownEntity => map[]
  }

  function WithTable(s: Store, e: Entity, t: Table): Store {
    match e
    case Workflow => s.(workflows := t)
    case Scenario => s.(scenarios := t)
    case UnknownEntity => s
  }

  function ApplyChange(s: Store, ch: Change): (Store, Outcome) {
    match ch.entity
    case Workflow =>
      var (t, o) := ChangeTable(s.workflows, ch);
      (s.(workflows := t), o)
    case Scenario =>
      var (t, o) := ChangeTable(s.scenarios, ch);
      (s.(scenarios := t), o)
    case UnknownEntity => (s, Error)
  }

  /** The changes one after another, with every outcome. */
  function ApplyAll(s: Store, changes: seq<Change>): (r: (Store, seq<Outcome>))
    ensures |r.1| == |changes|
  {
    if changes == [] then (s, [])
    else
      var n := |changes| - 1;
      var (before, outcomes) := ApplyAll(s, changes[..n]);
      var (after, o) := ApplyChange(before, changes[n]);
      (after, outcomes + [o])
  }

  lemma ApplyAllSnoc(s: Store, changes: seq<Change>, i: nat)
    requires i < |changes|
    ensures
      var (before, outcomes) := ApplyAll(s, changes[..i]);
      var (after, o) := ApplyChange(before, changes[i]);
      ApplyAll(s, changes[..i + 1]) == (after, outcomes + [o])
  {
    assert changes[..i + 1][..i] == changes[..i];
  }

  // ---- Batches ----------------------------------------------------------------------------

  function ErrorCount(outcomes: seq<Outcome>): nat {
    if outcomes == [] then 0
    else ErrorCount(outcomes[..|outcomes| - 1]) + if outcomes[|outcomes| - 1].Error? then 1 else 0
  }

  function Conflicts(outcomes: seq<Outcome>): seq<Outcome> {
    if outcomes == [] then []
    else
      Conflicts(outcomes[..|outcomes| - 1])
      + if outcomes[|outcomes| - 1].Conflict? then [outcomes[|outcomes| - 1]] else []
  }

  /** A batch with what its surroundings do: whether the metadata row and the commit go through. */
  datatype Batch = Batch(changes: seq<Change>, metadataOk: bool, commitOk: bool)

  predicate Commits(s: Store, b: Batch) {
    GoesThrough(ApplyAll(s, b.changes).1, b)
  }

  predicate GoesThrough(outcomes: seq<Outcome>, b: Batch) {
    ErrorCount(outcomes) == 0 && b.metadataOk && b.commitOk
  }

  datatype Response = Response(success: bool, processed: nat, conflicts: seq<Outcome>, errors: nat, serverVersion: int)

  /** An open transaction: its own view of the two tables, changed statement by statement. */
  class Tx {
    var workflows: Table
    var scenarios: Table

    constructor (store: Store)
      ensures View() == store
    {
      workflows, scenarios := store.workflows, store.scenarios;
    }

    ghost function View(): Store
      reads this
    {
      Store(workflows, scenarios)
    }

    /** The row `UPDATE ... WHERE id = ? AND version = ? AND is_deleted = 0` changes, if any. */
    method UpdateIfVersion(e: Entity, id: string, row: Row, base: int) returns (updated: bool)
      requires e != UnknownEntity
      modifies this
      ensures updated <==> old(AtVersion(TableOf(View(), e), id, base))
      ensures View() == if updated then WithTable(old(View()), e, old(TableOf(View(), e))[id := row]) else old(View())
    {
      if e.Workflow? {
        updated := id in workflows && workflows[id].version == base && !workflows[id].deleted;
        if updated {
          workflows := workflows[id := row];
        }
      } else {
        updated := id in scenarios && scenarios[id].version == base && !scenarios[id].deleted;
        if updated {
          scenarios := scenarios[id := row];
        }
      }
    }

    method DeleteIfVersion(e: Entity, id: string, base: int) returns (deleted: bool)
      requires e != UnknownEntity
      modifies this
      ensures deleted <==> old(AtVersion(TableOf(View(), e), id, base))
      ensures deleted ==> Live(old(TableOf(View(), e)), id)
      ensures View() ==
              if deleted then
                var t := old(TableOf(View(), e));
                WithTable(old(View()), e, t[id := Row(t[id].version + 1, true, t[id].content)])
              else old(View())
    {
      if e.Workflow? {
        deleted := id in workflows && workflows[id].version == base && !workflows[id].deleted;
        if deleted {
          workflows := workflows[id := workflows[id].(deleted := true, version := workflows[id].version + 1)];
        }
      } else {
        deleted := id in scenarios && scenarios[id].version == base && !scenarios[id].deleted;
        if deleted {
          scenarios := scenarios[id := scenarios[id].(deleted := true, version := scenarios[id].version + 1)];
        }
      }
    }

    method Upsert(e: Entity, id: string, row: Row)
      requires e != UnknownEntity
      modifies this
      ensures View() == WithTable(old(View()), e, old(TableOf(View(), e))[id := row])
    {
      if e.Workflow? {
        workflows := workflows[id := row];
      } else {
        scenarios := scenarios[id := row];
      }
    }

    /** GetWorkflow and GetScenario: deleted rows are not found, and the callers treat a
        failed read as a row not found. */
    method Get(e: Entity, id: string, readOk: bool) returns (row: Option<Row>)
      ensures row.Some? <==> readOk && Live(TableOf(View(), e), id)
      ensures row.Some? ==> row.value == TableOf(View(), e)[id]
    {
      var t := if e.Workflow? then workflows else if e.Scenario? then scenarios else map[];
      return if readOk && id in t && !t[id].deleted then Some(t[id]) else None;
    }

    /** processWorkflowChangeInTx and processScenarioChangeInTx, behind processChangeInTx. */
    method ProcessChange(ch: Change) returns (o: Outcome)
      modifies this
      ensures (View(), o) == ApplyChange(old(View()), ch)
    {
      if ch.entity.UnknownEntity? || ch.kind.UnknownKind? {
        return Error;
      }
      if ch.kind.Delete? {
        if !ch.writeOk {
          return Error;
        }
        var deleted := DeleteIfVersion(ch.entity, ch.entityId, ch.clientVersion);
        if deleted {
          return Applied;
        }
        var existing := Get(ch.entity, ch.entityId, ch.readOk);
        return if existing.None? then Skipped else Conflict(ch.entityId, ch.clientVersion, existing.value.version);
      }
      if ch.data.None? {
        return Error;
      }
      var id := ch.data.value.id;
      if ch.kind.Insert? {
        var existing := Get(ch.entity, id, ch.readOk);
        if existing.Some? {
          return Conflict(id, ch.clientVersion, existing.value.version);
        }
        if !ch.writeOk {
          return Error;
        }
        Upsert(ch.entity, id, Row(1, ch.data.value.deleted, ch.data.value.content));
        return Applied;
      }
      if !ch.writeOk {
        return Error;
      }
      var row := Row(ch.clientVersion + 1, ch.data.value.deleted, ch.data.value.content);
      var updated := UpdateIfVersion(ch.entity, id, row, ch.clientVersion);
      if updated {
        return Applied;
      }
      var existing := Get(ch.entity, id, ch.readOk);
      return if existing.None? then Error else Conflict(id, ch.clientVersion, existing.value.version);
    }

    /** The loop of ProcessBatch. */
    method ProcessChanges(changes: seq<Change>) returns (processed: nat, errors: nat, conflicts: seq<Outcome>)
      modifies this
      ensures View() == old(ApplyAll(View(), changes).0)
      ensures errors == old(ErrorCount(ApplyAll(View(), changes).1))
      ensures conflicts == old(Conflicts(ApplyAll(View(), changes).1))
      ensures processed + errors == |changes|
    {
      processed, errors, conflicts := 0, 0, [];
      ghost var outcomes: seq<Outcome> := [];
      for i := 0 to |changes|
        invariant (View(), outcomes) == ApplyAll(old(View()), changes[..i])
        invariant errors == ErrorCount(outcomes) && conflicts == Conflicts(outcomes)
        invariant processed + errors == i
      {
        ApplyAllSnoc(old(View()), changes, i);
        var outcome := ProcessChange(changes[i]);
        assert (outcomes + [outcome])[..i] == outcomes;
        outcomes := outcomes + [outcome];
        if outcome.Conflict? {
          conflicts := conflicts + [outcome];
        }
        if outcome.Error? {
          errors := errors + 1;
        } else {
          processed := processed + 1;
        }
      }
      assert changes[..|changes|] == changes;
    }
  }

  class SyncService {
    var store: Store
    var lastSyncVersion: int

    constructor (store: Store)
      ensures this.store == store && lastSyncVersion == 0
    {
      this.store, lastSyncVersion := store, 0;
    }

    /** ProcessBatch: a batch with any error leaves the store as it was; otherwise the store
        becomes what the changes, applied in order, make of it. */
    method ProcessBatch(b: Batch) returns (r: Response)
      modifies this
      ensures r.success <==> old(Commits(store, b))
      ensures store == if r.success then old(ApplyAll(store, b.changes).0) else old(store)
      ensures lastSyncVersion == if r.success then old(lastSyncVersion) + 1 else old(lastSyncVersion)
      ensures r.serverVersion == old(lastSyncVersion) + 1
      ensures r.conflicts == old(Conflicts(ApplyAll(store, b.changes).1))
      ensures r.processed + old(ErrorCount(ApplyAll(store, b.changes).1)) == |b.changes|
    {
      var tx := new Tx(store);
      var processed, errors, conflicts := tx.ProcessChanges(b.changes);
      var serverVersion := lastSyncVersion + 1;
      if !b.metadataOk {
        return Response(false, processed, conflicts, errors + 1, serverVersion);
      }
      if errors > 0 {
        return Response(false, processed, conflicts, errors, serverVersion);
      }
      if !b.commitOk {
        return Response(false, processed, conflicts, 1, serverVersion);
      }
      store := Store(tx.workflows, tx.scenarios);
      lastSyncVersion := serverVersion;
      return Response(true, processed, conflicts, 0, serverVersion);
    }
  }

  // ---- Histories of batches --------------------------------------------------------------------

  /** The store after a series of batches, and the changes that were committed. */
  function RunBatches(s: Store, batches: seq<Batch>): (Store, seq<Change>) {
    if batches == [] then (s, [])
    else
      var n := |batches| - 1;
      var (before, history) := RunBatches(s, batches[..n]);
      if Commits(before, batches[n]) then (ApplyAll(before, batches[n].changes).0, history + batches[n].changes)
      else (before, history)
  }

  lemma {:induction false} ApplyAllConcat(s: Store, a: seq<Change>, b: seq<Change>)
    ensures ApplyAll(s, a + b).0 == ApplyAll(ApplyAll(s, a).0, b).0
    ensures ApplyAll(s, a + b).1 == ApplyAll(s, a).1 + ApplyAll(ApplyAll(s, a).0, b).1
    decreases |b|
  {
    if b == [] {
      assert a + b == a;
    } else {
      var n := |b| - 1;
      ApplyAllConcat(s, a, b[..n]);
      assert (a + b)[..|a| + n] == a + b[..n];
    }
  }

  lemma {:induction false} ErrorsAdd(a: seq<Outcome>, b: seq<Outcome>)
    ensures ErrorCount(a + b) == ErrorCount(a) + ErrorCount(b)
    decreases |b|
  {
    if b == [] {
      assert a + b == a;
    } else {
      var n := |b| - 1;
      ErrorsAdd(a, b[..n]);
      assert (a + b)[..|a| + n] == a + b[..n];
    }
  }

  /** Whatever fails in between, the store is always the result of applying the committed
      changes in order, and none of those was an error. */
  lemma {:induction false} BatchesAreSerial(s: Store, batches: seq<Batch>)
    ensures
      var (after, history) := RunBatches(s, batches);
      after == ApplyAll(s, history).0 && ErrorCount(ApplyAll(s, history).1) == 0
  {
    if batches != [] {
      var n := |batches| - 1;
      BatchesAreSerial(s, batches[..n]);
      var (before, history) := RunBatches(s, batches[..n]);
      if Commits(before, batches[n]) {
        ApplyAllConcat(s, history, batches[n].changes);
        ErrorsAdd(ApplyAll(s, history).1, ApplyAll(before, batches[n].changes).1);
      }
    }
  }

  /** What each outcome says about the row it names: a conflict changes nothing and reports
      the live version the change did not name; an applied insert or update is what is read
      back; an applied delete leaves the row unreadable at the next version. */
  lemma OutcomeMeaning(t: Table, ch: Change)
    ensures
      var (after, o) := ChangeTable(t, ch);
      && (!o.Applied? ==> after == t)
      && (o.Conflict? ==>
            && Live(t, o.id) && o.currentVersion == t[o.id].version && o.clientVersion == ch.clientVersion
            && (ch.kind != Insert ==> o.currentVersion != ch.clientVersion))
      && (o.Applied? && ch.kind != Delete ==>
            var d := ch.data.value;
            && d.id in after && after[d.id].content == d.content && after[d.id].deleted == d.deleted
            && (ch.kind == Insert ==> after[d.id].version == 1 && !(ch.readOk && Live(t, d.id)))
            && (ch.kind == Update ==> Live(t, d.id) && after[d.id].version == t[d.id].version + 1))
      && (o.Applied? && ch.kind == Delete ==>
            && Live(t, ch.entityId) && !Live(after, ch.entityId)
            && after[ch.entityId].version == t[ch.entityId].version + 1 && after[ch.entityId].content == t[ch.entityId].content)
      && (o.Applied? ==>
            var id := if ch.kind == Delete then ch.entityId else ch.data.value.id;
            forall k :: k != id ==> Lookup(after, k) == Lookup(t, k))
  {
  }

  /** Which outcome a change gets, by what its table held before: an update is applied exactly
      at the version it names, conflicts exactly with a live row at another version, and is an
      error otherwise; an insert conflicts exactly with a live row it sees; a delete of a row
      it does not see is skipped. */
  lemma OutcomeExactly(t: Table, ch: Change)
    ensures
      var o := ChangeTable(t, ch).1;
      var id := if ch.kind == Delete then ch.entityId else if ch.data.Some? then ch.data.value.id else "";
      var live := id in t && !t[id].deleted;
      && (ch.kind == UnknownKind || (ch.kind != Delete && ch.data.None?) ==> o.Error?)
      && (ch.kind == Update && ch.data.Some? ==>
            && (o.Applied? <==> ch.writeOk && live && t[id].version == ch.clientVersion)
            && (o.Conflict? <==> ch.writeOk && ch.readOk && live && t[id].version != ch.clientVersion)
            && (o.Error? <==> !ch.writeOk || !live || (!ch.readOk && t[id].version != ch.clientVersion)))
      && (ch.kind == Insert && ch.data.Some? ==>
            && (o.Conflict? <==> ch.readOk && live)
            && (o.Applied? <==> ch.writeOk && !(ch.readOk && live))
            && (o.Error? <==> !ch.writeOk && !(ch.readOk && live)))
      && (ch.kind == Delete ==>
            && (o.Applied? <==> ch.writeOk && live && t[id].version == ch.clientVersion)
            && (o.Conflict? <==> ch.writeOk && ch.readOk && live && t[id].version != ch.clientVersion)
            && (o.Skipped? <==> ch.writeOk && (!live || (!ch.readOk && t[id].version != ch.clientVersion)))
            && (o.Error? <==> !ch.writeOk))
  {
  }

  /** A change concerns its own table only; one of an unknown entity is an error. */
  lemma ChangeIsLocal(s: Store, ch: Change)
    ensures
      var (after, o) := ApplyChange(s, ch);
      && (ch.entity == Workflow ==> after.scenarios == s.scenarios && (after.workflows, o) == ChangeTable(s.workflows, ch))
      && (ch.entity == Scenario ==> after.workflows == s.workflows && (after.scenarios, o) == ChangeTable(s.scenarios, ch))
      && (ch.entity == UnknownEntity ==> after == s && o == Error)
  {
  }

  /** The i-th outcome of a batch is that of its i-th change in the store the earlier ones
      left. */
  lemma {:induction false} OutcomeAt(s: Store, changes: seq<Change>, i: nat)
    requires i < |changes|
    ensures ApplyAll(s, changes).1[i] == ApplyChange(ApplyAll(s, changes[..i]).0, changes[i]).1
    decreases |changes|
  {
    var n := |changes| - 1;
    if i < n {
      OutcomeAt(s, changes[..n], i);
      assert changes[..n][..i] == changes[..i];
    }
  }

  function IsError(): Outcome -> bool {
    (o: Outcome) => o.Error?
  }

  lemma {:induction false} ErrorsCounted(outcomes: seq<Outcome>)
    ensures ErrorCount(outcomes) == |Where(outcomes, IsError())|
  {
    if outcomes != [] {
      ErrorsCounted(outcomes[..|outcomes| - 1]);
      WhereSnoc(outcomes, IsError());
    }
  }

  /** `at` lists, in order, the positions of exactly the conflicting outcomes. */
  ghost predicate ListsConflicts(outcomes: seq<Outcome>, at: seq<nat>) {
    && (forall j, k :: 0 <= j < k < |at| ==> at[j] < at[k])
    && (forall k :: 0 <= k < |at| ==> at[k] < |outcomes| && outcomes[at[k]].Conflict?)
    && (forall i :: 0 <= i < |outcomes| && outcomes[i].Conflict? ==> i in at)
  }

  lemma ListsSnoc(outcomes: seq<Outcome>, at: seq<nat>, o: Outcome)
    requires ListsConflicts(outcomes, at)
    ensures ListsConflicts(outcomes + [o], if o.Conflict? then at + [|outcomes|] else at)
  {
    var all, next := outcomes + [o], if o.Conflict? then at + [|outcomes|] else at;
    forall i | 0 <= i < |all| && all[i].Conflict?
      ensures i in next
    {
      if i < |outcomes| {
        assert outcomes[i].Conflict? && i in at;
      } else {
        assert next[|at|] == i;
      }
    }
  }

  /** `reported` are the outcomes at the positions `at`. */
  ghost predicate Reports(outcomes: seq<Outcome>, at: seq<nat>, reported: seq<Outcome>) {
    && |at| == |reported|
    && forall k :: 0 <= k < |at| ==> at[k] < |outcomes| && reported[k] == outcomes[at[k]]
  }

  lemma ReportsSnoc(outcomes: seq<Outcome>, at: seq<nat>, reported: seq<Outcome>, o: Outcome)
    requires Reports(outcomes, at, reported)
    ensures Reports(outcomes + [o], at, reported)
    ensures Reports(outcomes + [o], at + [|outcomes|], reported + [o])
  {
  }

  lemma ConflictsSnoc(outcomes: seq<Outcome>, o: Outcome)
    ensures Conflicts(outcomes + [o]) == if o.Conflict? then Conflicts(outcomes) + [o] else Conflicts(outcomes)
  {
    assert (outcomes + [o])[..|outcomes|] == outcomes;
  }

  lemma ReportedSnoc(outcomes: seq<Outcome>, at: seq<nat>, o: Outcome)
    requires ListsConflicts(outcomes, at) && Reports(outcomes, at, Conflicts(outcomes))
    ensures
      var next := if o.Conflict? then at + [|outcomes|] else at;
      ListsConflicts(outcomes + [o], next) && Reports(outcomes + [o], next, Conflicts(outcomes + [o]))
  {
    ListsSnoc(outcomes, at, o);
    ReportsSnoc(outcomes, at, Conflicts(outcomes), o);
    ConflictsSnoc(outcomes, o);
  }

  /** The reported conflicts are exactly the conflicting outcomes, in order. */
  lemma {:induction false} ConflictsReported(outcomes: seq<Outcome>) returns (at: seq<nat>)
    ensures ListsConflicts(outcomes, at) && Reports(outcomes, at, Conflicts(outcomes))
  {
    if outcomes == [] {
      at := [];
    } else {
      var front, last := outcomes[..|outcomes| - 1], outcomes[|outcomes| - 1];
      var before := ConflictsReported(front);
      ReportedSnoc(front, before, last);
      assert outcomes == front + [last];
      at := if last.Conflict? then before + [|front|] else before;
    }
  }

  /** What a batch answers: `at` are, in order, exactly the changes whose outcome, in the store
      the earlier changes left, is a conflict; each is reported as it met it; and the errors
      are counted one by one. */
  lemma BatchAnswer(s: Store, changes: seq<Change>) returns (at: seq<nat>)
    ensures
      var outcomes := ApplyAll(s, changes).1;
      && ListsConflicts(outcomes, at) && Reports(outcomes, at, Conflicts(outcomes))
      && ErrorCount(outcomes) == |Where(outcomes, IsError())|
    ensures forall i :: 0 <= i < |changes| ==>
                          ApplyAll(s, changes).1[i] == ApplyChange(ApplyAll(s, changes[..i]).0, changes[i]).1
  {
    at := ConflictsReported(ApplyAll(s, changes).1);
    ErrorsCounted(ApplyAll(s, changes).1);
    forall i | 0 <= i < |changes|
      ensures ApplyAll(s, changes).1[i] == ApplyChange(ApplyAll(s, changes[..i]).0, changes[i]).1
    {
      OutcomeAt(s, changes, i);
    }
  }

  lemma NoErrorsExactly(outcomes: seq<Outcome>)
    ensures ErrorCount(outcomes) == 0 <==> forall i :: 0 <= i < |outcomes| ==> !outcomes[i].Error?
  {
    ErrorsCounted(outcomes);
    WhereNone(outcomes, IsError());
    assert forall i :: 0 <= i < |outcomes| ==> (IsError()(outcomes[i]) <==> outcomes[i].Error?);
  }

  /** A batch goes through exactly when none of its changes is an error and the metadata row and
      the commit go through. */
  lemma CommitsExactly(outcomes: seq<Outcome>, b: Batch)
    ensures GoesThrough(outcomes, b) <==>
              (forall i :: 0 <= i < |outcomes| ==> !outcomes[i].Error?) && b.metadataOk && b.commitOk
  {
    NoErrorsExactly(outcomes);
  }

  // ---- Versions ---------------------------------------------------------------------------------

  /** The store before the i-th committed change. */
  function At(s: Store, history: seq<Change>, i: nat): Store
    requires i <= |history|
  {
    ApplyAll(s, history[..i]).0
  }

  /** The change is an accepted update of `id`. */
  predicate Updates(s: Store, ch: Change, e: Entity, id: string) {
    && ch.entity == e && ch.kind == Update
    && ch.data.Some? && ch.data.value.id == id
    && ApplyChange(s, ch).1 == Applied
  }

  ghost predicate Accepted(s: Store, history: seq<Change>, i: nat, e: Entity, id: string)
    requires i < |history|
  {
    Updates(At(s, history, i), history[i], e, id)
  }

  ghost predicate LiveAt(s: Store, history: seq<Change>, i: nat, e: Entity, id: string)
    requires i <= |history|
  {
    Live(TableOf(At(s, history, i), e), id)
  }

  ghost predicate LiveThroughout(s: Store, history: seq<Change>, i: nat, j: nat, e: Entity, id: string)
    requires j <= |history|
  {
    forall k :: i <= k <= j ==> LiveAt(s, history, k, e, id)
  }

  ghost function VersionAt(s: Store, history: seq<Change>, i: nat, e: Entity, id: string): int
    requires i <= |history| && LiveAt(s, history, i, e, id)
  {
    TableOf(At(s, history, i), e)[id].version
  }

  /** An insert of `id` whose read fails: should the row be live, it is written over. */
  predicate InsertsBlindly(ch: Change, e: Entity, id: string) {
    && ch.entity == e && ch.kind == Insert
    && ch.data.Some? && ch.data.value.id == id
    && !ch.readOk && ch.writeOk
  }

  ghost function AcceptedBetween(s: Store, history: seq<Change>, i: nat, j: nat, e: Entity, id: string): nat
    requires i <= j <= |history|
    decreases j
  {
    if i == j then 0
    else AcceptedBetween(s, history, i, j - 1, e, id) + if Accepted(s, history, j - 1, e, id) then 1 else 0
  }

  /** While a row is live, a change either updates it, raising its version by one from
      exactly the base it names, or leaves its version alone, or is a blind insert, which
      sets it back to one. */
  lemma VersionStep(s: Store, ch: Change, e: Entity, id: string)
    requires Live(TableOf(s, e), id) && Live(TableOf(ApplyChange(s, ch).0, e), id)
    ensures
      var before, after := TableOf(s, e)[id].version, TableOf(ApplyChange(s, ch).0, e)[id].version;
      && after == (if InsertsBlindly(ch, e, id) then 1 else before + if Updates(s, ch, e, id) then 1 else 0)
      && (Updates(s, ch, e, id) ==> ch.clientVersion == before)
      && (after == before + (if Updates(s, ch, e, id) then 1 else 0) <==> !InsertsBlindly(ch, e, id) || before == 1)
  {
  }

  lemma AtStep(s: Store, history: seq<Change>, i: nat)
    requires i < |history|
    ensures At(s, history, i + 1) == ApplyChange(At(s, history, i), history[i]).0
  {
    assert history[..i + 1][..i] == history[..i];
  }

  lemma VersionStepAt(s: Store, history: seq<Change>, i: nat, e: Entity, id: string)
    requires i < |history| && LiveAt(s, history, i, e, id) && LiveAt(s, history, i + 1, e, id)
    requires !InsertsBlindly(history[i], e, id)
    ensures VersionAt(s, history, i + 1, e, id)
            == VersionAt(s, history, i, e, id) + if Accepted(s, history, i, e, id) then 1 else 0
    ensures Accepted(s, history, i, e, id) ==> history[i].clientVersion == VersionAt(s, history, i, e, id)
  {
    AtStep(s, history, i);
    VersionStep(At(s, history, i), history[i], e, id);
  }

  /** While a workflow or scenario stays live and is not inserted blindly, its version counts
      the accepted updates. */
  lemma {:induction false} VersionCountsUpdates(s: Store, history: seq<Change>, i: nat, j: nat, e: Entity, id: string)
    requires i <= j <= |history|
    requires LiveThroughout(s, history, i, j, e, id)
    requires forall k :: i <= k < j ==> !InsertsBlindly(history[k], e, id)
    ensures VersionAt(s, history, j, e, id) == VersionAt(s, history, i, e, id) + AcceptedBetween(s, history, i, j, e, id)
    decreases j
  {
    if i < j {
      VersionCountsUpdates(s, history, i, j - 1, e, id);
      VersionStepAt(s, history, j - 1, e, id);
    }
  }

  /** So no two accepted updates share a base version: of two accepted updates of a row that
      stays live and is not inserted blindly in between, the later one names a larger base. */
  lemma BaseVersionsDiffer(s: Store, history: seq<Change>, i: nat, j: nat, e: Entity, id: string)
    requires i < j < |history|
    requires LiveThroughout(s, history, i, j, e, id)
    requires forall k :: i <= k < j ==> !InsertsBlindly(history[k], e, id)
    requires Accepted(s, history, i, e, id) && Accepted(s, history, j, e, id)
    ensures history[i].clientVersion < history[j].clientVersion
  {
    VersionCountsUpdates(s, history, i, j, e, id);
    FirstCounts(s, history, i, j, e, id);
    BaseIsVersion(s, history, i, e, id);
    BaseIsVersion(s, history, j, e, id);
  }

  lemma BaseIsVersion(s: Store, history: seq<Change>, i: nat, e: Entity, id: string)
    requires i < |history| && Accepted(s, history, i, e, id)
    ensures LiveAt(s, history, i, e, id) && history[i].clientVersion == VersionAt(s, history, i, e, id)
  {
  }

  lemma {:induction false} FirstCounts(s: Store, history: seq<Change>, i: nat, j: nat, e: Entity, id: string)
    requires i < j <= |history| && Accepted(s, history, i, e, id)
    ensures AcceptedBetween(s, history, i, j, e, id) >= 1
    decreases j
  {
    if i + 1 < j {
      FirstCounts(s, history, i, j - 1, e, id);
    }
  }

  /** With a blind insert in between they can share one: a live row at version one takes an
      update of base one, then the insert, then the same update again. */
  lemma BlindInsertRepeatsABase(s: Store, e: Entity, d: Data)
    requires e != UnknownEntity && AtVersion(TableOf(s, e), d.id, 1) && !d.deleted
    ensures
      var update := Change(e, Update, d.id, Some(d), 1, true, true);
      var history := [update, Change(e, Insert, d.id, Some(d), 1, false, true), update];
      && LiveThroughout(s, history, 0, 2, e, d.id)
      && Accepted(s, history, 0, e, d.id) && Accepted(s, history, 2, e, d.id)
      && history[0].clientVersion == history[2].clientVersion
  {
    var update := Change(e, Update, d.id, Some(d), 1, true, true);
    var insert := Change(e, Insert, d.id, Some(d), 1, false, true);
    var history := [update, insert, update];
    assert At(s, history, 0) == s;
    UpdateThenInsert(s, e, d, update, insert);
    AtStep(s, history, 0);
    AtStep(s, history, 1);
    assert LiveAt(s, history, 0, e, d.id) && LiveAt(s, history, 1, e, d.id) && LiveAt(s, history, 2, e, d.id);
    assert Accepted(s, history, 0, e, d.id);
    assert Accepted(s, history, 2, e, d.id);
  }

  lemma UpdateThenInsert(s: Store, e: Entity, d: Data, update: Change, insert: Change)
    requires e != UnknownEntity && AtVersion(TableOf(s, e), d.id, 1) && !d.deleted
    requires update == Change(e, Update, d.id, Some(d), 1, true, true)
    requires insert == Change(e, Insert, d.id, Some(d), 1, false, true)
    ensures
      var s1 := ApplyChange(s, update).0;
      var s2 := ApplyChange(s1, insert).0;
      && Updates(s, update, e, d.id) && Updates(s2, update, e, d.id)
      && Live(TableOf(s1, e), d.id) && Live(TableOf(s2, e), d.id)
  {
  }
}
