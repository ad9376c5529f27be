/** The batch cell-mutation engine of App.tsx (`performBatchUpdate`), as
    functions over the row list: every write is re-checked against the
    column access of the row as it was before the batch, unchanged strings
    are no-ops, a changed row gets one version bump, and every accepted
    change yields one audit entry. */
module Batch {
  import opened Types
  import opened AccessControl

  /** What one batch runs with: the acting user, the active workspace and its
      id, the current time and the generator of log ids (the n-th entry of
      the batch gets `logId(n)`). */
  datatype Context = Context(user: User, ws: Workspace, wsId: string, now: string, logId: nat -> string)

  /** The state of one row while its updates are applied. */
  datatype RowOutcome = RowOutcome(row: Row, changed: bool, logs: seq<AuditLog>, updated: nat, skipped: nat)

  datatype BatchOutcome = BatchOutcome(rows: seq<Row>, logs: seq<AuditLog>, updated: nat, skipped: nat)

  /** `update.value === null ? '' : update.value`. */
  function Normalize(v: Value): Value {
    if v == Null then Str("") else v
  }

  /** `updates.filter(u => u.rowId === row.id)`. */
  function UpdatesFor(updates: seq<Update>, rowId: string): (r: seq<Update>)
    ensures forall u :: u in r <==> u in updates && u.rowId == rowId
  {
    if updates == [] then []
    else (if updates[0].rowId == rowId then [updates[0]] else []) + UpdatesFor(updates[1..], rowId)
  }

  /** The filter keeps the batch order, duplicates included, on which
      last-write-wins depends: it distributes over concatenation and keeps
      or drops a single update by its row id. */
  lemma {:induction false} UpdatesForAppend(a: seq<Update>, b: seq<Update>, rowId: string)
    ensures UpdatesFor(a + b, rowId) == UpdatesFor(a, rowId) + UpdatesFor(b, rowId)
    decreases |a|
  {
    if a == [] {
      assert a + b == b;
    } else {
      assert (a + b)[1..] == a[1..] + b;
      UpdatesForAppend(a[1..], b, rowId);
    }
  }

  lemma UpdatesForSingle(u: Update, rowId: string)
    ensures UpdatesFor([u], rowId) == if u.rowId == rowId then [u] else []
  {
    assert [u][1..] == [];
  }

  function Access(ctx: Context, orig: Row, field: string): AccessLevel {
    GetColumnAccess(ctx.user, orig, field, ctx.ws)
  }

  /** One iteration of the `rowUpdates.forEach`: access is decided on `orig`,
      the comparison on the row built so far. `base` is the number of log
      entries earlier rows of this batch produced. */
  function ApplyOne(ctx: Context, orig: Row, prev: RowOutcome, u: Update, base: nat): RowOutcome {
    if Access(ctx, orig, u.field) == Write then
      var v := Normalize(u.value);
      var oldS := Stringify(Get(prev.row, u.field));
      var newS := Stringify(v);
      if oldS != newS then
        var entry := AuditLog(ctx.logId(base + |prev.logs|), orig.id, ctx.wsId, ctx.user.name, u.field, oldS, newS, ctx.now);
        RowOutcome(Set(prev.row, u.field, v), true, prev.logs + [entry], prev.updated + 1, prev.skipped)
      else prev
    else prev.(skipped := prev.skipped + 1)
  }

  /** The updates of one row, applied in order. */
  function ApplyUpdates(ctx: Context, orig: Row, us: seq<Update>, base: nat): RowOutcome
    decreases |us|
  {
    if us == [] then RowOutcome(orig, false, [], 0, 0)
    else ApplyOne(ctx, orig, ApplyUpdates(ctx, orig, us[..|us| - 1], base), us[|us| - 1], base)
  }

  /** One more update: the outcome over `us[..j + 1]` is the outcome over
      `us[..j]` with update `j` applied. */
  lemma ApplyStep(ctx: Context, orig: Row, us: seq<Update>, j: nat, base: nat)
    requires j < |us|
    ensures ApplyUpdates(ctx, orig, us[..j + 1], base) == ApplyOne(ctx, orig, ApplyUpdates(ctx, orig, us[..j], base), us[j], base)
  {
    assert us[..j + 1][..j] == us[..j];
  }

  /** `if (changed) { newRow.version++; newRow.updatedAt = now } else row`. */
  function FinishRow(orig: Row, o: RowOutcome, now: string): Row {
    if o.changed then o.row.(version := o.row.version + 1, updatedAt := now) else orig
  }

  function ProcessRow(ctx: Context, row: Row, updates: seq<Update>, base: nat): RowOutcome {
    ApplyUpdates(ctx, row, UpdatesFor(updates, row.id), base)
  }

  /** `prev.map(row => ...)` together with the counters and the log buffer. */
  function BatchRows(ctx: Context, rows: seq<Row>, updates: seq<Update>): BatchOutcome
    decreases |rows|
  {
    if rows == [] then BatchOutcome([], [], 0, 0)
    else
      var prev := BatchRows(ctx, rows[..|rows| - 1], updates);
      var row := rows[|rows| - 1];
      var o := ProcessRow(ctx, row, updates, |prev.logs|);
      BatchOutcome(prev.rows + [FinishRow(row, o, ctx.now)], prev.logs + o.logs,
                   prev.updated + o.updated, prev.skipped + o.skipped)
  }

  // ---------------------------------------------------------------------
  // Independent reference counts
  // ---------------------------------------------------------------------

  /** The updates of `us` that the access check refuses on `orig`. */
  function CountDenied(ctx: Context, orig: Row, us: seq<Update>): nat
    decreases |us|
  {
    if us == [] then 0
    else CountDenied(ctx, orig, us[..|us| - 1]) + (if Access(ctx, orig, us[|us| - 1].field) == Write then 0 else 1)
  }

  /** The last value written to `f` by a permitted update of `us`, if any. */
  function LastPermitted(ctx: Context, orig: Row, us: seq<Update>, f: string): Option<Value>
    decreases |us|
  {
    if us == [] then None
    else
      var u := us[|us| - 1];
      if u.field == f && Access(ctx, orig, f) == Write then Some(Normalize(u.value))
      else LastPermitted(ctx, orig, us[..|us| - 1], f)
  }

  // ---------------------------------------------------------------------
  // One row
  // ---------------------------------------------------------------------

  /** Counters: `updated` equals the number of new audit entries, the row
      counts as changed exactly when something was updated, and `skipped`
      equals the number of updates refused on the pre-batch row. */
  lemma {:induction false} RowCounts(ctx: Context, orig: Row, us: seq<Update>, base: nat)
    ensures var o := ApplyUpdates(ctx, orig, us, base);
      && o.updated == |o.logs|
      && (o.changed <==> o.updated > 0)
      && o.skipped == CountDenied(ctx, orig, us)
      && (!o.changed ==> o.row == orig)
    decreases |us|
  {
    if us != [] {
      RowCounts(ctx, orig, us[..|us| - 1], base);
    }
  }

  /** Audit entry `e`, the `n`-th of the batch, records one accepted change
      of `orig`: it names the row, the active workspace and the operator, a
      field the operator may write and two different stringified values, and
      carries the batch time and the `n`-th log id. */
  predicate Records(ctx: Context, orig: Row, e: AuditLog, n: nat) {
    && e.id == ctx.logId(n)
    && e.rowId == orig.id
    && e.workspaceId == ctx.wsId
    && e.operatorName == ctx.user.name
    && e.timestamp == ctx.now
    && e.oldValue != e.newValue
    && Access(ctx, orig, e.field) == Write
  }

  /** Every new audit entry records one accepted change, under consecutive ids. */
  lemma {:induction false} RowLogsFaithful(ctx: Context, orig: Row, us: seq<Update>, base: nat)
    ensures forall k :: 0 <= k < |ApplyUpdates(ctx, orig, us, base).logs| ==>
      Records(ctx, orig, ApplyUpdates(ctx, orig, us, base).logs[k], base + k)
    decreases |us|
  {
    if us != [] {
      var prev := ApplyUpdates(ctx, orig, us[..|us| - 1], base);
      var u := us[|us| - 1];
      RowLogsFaithful(ctx, orig, us[..|us| - 1], base);
      ApplyOneLogs(ctx, orig, prev, u, base);
      EntryAtRecords(ctx, orig, prev.row, u, base + |prev.logs|);
      var logs := ApplyUpdates(ctx, orig, us, base).logs;
      assert logs == ApplyOne(ctx, orig, prev, u, base).logs;
      forall k | 0 <= k < |logs| ensures Records(ctx, orig, logs[k], base + k) {
        if k < |prev.logs| {
          assert logs[k] == prev.logs[k];
        }
      }
    }
  }

  /** The first `n` updates of `us` applied in order, counted by position. */
  function Run(ctx: Context, orig: Row, us: seq<Update>, base: nat, n: nat): RowOutcome
    requires n <= |us|
    decreases n
  {
    if n == 0 then RowOutcome(orig, false, [], 0, 0)
    else ApplyOne(ctx, orig, Run(ctx, orig, us, base, n - 1), us[n - 1], base)
  }

  /** Running the first `n` updates is applying the prefix of length `n`. */
  lemma {:induction false} RunIsApply(ctx: Context, orig: Row, us: seq<Update>, base: nat, n: nat)
    requires n <= |us|
    ensures Run(ctx, orig, us, base, n) == ApplyUpdates(ctx, orig, us[..n], base)
    decreases n
  {
    if n == 0 {
      assert us[..0] == [];
    } else {
      RunIsApply(ctx, orig, us, base, n - 1);
      ApplyStep(ctx, orig, us, n - 1, base);
    }
  }

  /** Update `u` is accepted on the row built so far: its field is
      writable on the pre-batch row and its string differs from the
      field's string in `row`. */
  predicate Accepts(ctx: Context, orig: Row, row: Row, u: Update) {
    && Access(ctx, orig, u.field) == Write
    && Stringify(Get(row, u.field)) != Stringify(Normalize(u.value))
  }

  /** The audit entry, `n`-th of the batch, that accepting `u` on `row` yields. */
  function EntryAt(ctx: Context, orig: Row, row: Row, u: Update, n: nat): AuditLog {
    AuditLog(ctx.logId(n), orig.id, ctx.wsId, ctx.user.name, u.field,
             Stringify(Get(row, u.field)), Stringify(Normalize(u.value)), ctx.now)
  }

  /** The entry of an accepted update records an accepted change. */
  lemma EntryAtRecords(ctx: Context, orig: Row, row: Row, u: Update, n: nat)
    ensures Accepts(ctx, orig, row, u) ==> Records(ctx, orig, EntryAt(ctx, orig, row, u, n), n)
  {
  }

  /** One step logs one entry exactly when it accepts its update. */
  lemma ApplyOneLogs(ctx: Context, orig: Row, prev: RowOutcome, u: Update, base: nat)
    ensures Accepts(ctx, orig, prev.row, u) ==>
      ApplyOne(ctx, orig, prev, u, base).logs == prev.logs + [EntryAt(ctx, orig, prev.row, u, base + |prev.logs|)]
    ensures !Accepts(ctx, orig, prev.row, u) ==> ApplyOne(ctx, orig, prev, u, base).logs == prev.logs
  {
  }

  /** Update `j` of `us` is accepted on the row built from the updates before it. */
  predicate AcceptedAt(ctx: Context, orig: Row, us: seq<Update>, base: nat, j: nat)
    requires j < |us|
  {
    Accepts(ctx, orig, Run(ctx, orig, us, base, j).row, us[j])
  }

  /** The audit entry an accepted update `us[j]` yields as the `n`-th log
      entry of the batch: the field, its string in the row built from the
      updates before it and the written string. */
  function EntryFor(ctx: Context, orig: Row, us: seq<Update>, base: nat, j: nat, n: nat): AuditLog
    requires j < |us|
  {
    EntryAt(ctx, orig, Run(ctx, orig, us, base, j).row, us[j], n)
  }

  /** The indices, among the first `n` updates, of the accepted ones, in order. */
  function Sources(ctx: Context, orig: Row, us: seq<Update>, base: nat, n: nat): (src: seq<nat>)
    requires n <= |us|
    ensures forall k :: 0 <= k < |src| ==> src[k] < n
    decreases n
  {
    if n == 0 then []
    else Sources(ctx, orig, us, base, n - 1) + (if AcceptedAt(ctx, orig, us, base, n - 1) then [n - 1] else [])
  }

  /** Appending, or not, an index above all listed ones keeps the list
      strictly increasing and adds exactly that index. */
  lemma AppendIndex(src: seq<nat>, j: nat, b: bool)
    requires forall k :: 0 <= k < |src| ==> src[k] < j
    ensures var r := src + (if b then [j] else []);
      && (forall x :: x in r <==> x in src || (b && x == j))
      && ((forall k, k' :: 0 <= k < k' < |src| ==> src[k] < src[k']) ==>
          forall k, k' :: 0 <= k < k' < |r| ==> r[k] < r[k'])
  {
  }

  /** `Sources` lists, in strictly increasing order, exactly the accepted
      updates below `n`. */
  lemma {:induction false} SourcesExact(ctx: Context, orig: Row, us: seq<Update>, base: nat, n: nat)
    requires n <= |us|
    ensures var src := Sources(ctx, orig, us, base, n);
      && (forall k, k' :: 0 <= k < k' < |src| ==> src[k] < src[k'])
      && (forall j :: 0 <= j < n ==> (j in src <==> AcceptedAt(ctx, orig, us, base, j)))
    decreases n
  {
    if n > 0 {
      SourcesExact(ctx, orig, us, base, n - 1);
      AppendIndex(Sources(ctx, orig, us, base, n - 1), n - 1, AcceptedAt(ctx, orig, us, base, n - 1));
    }
  }

  /** Update `j` appends its entry, at the next position, exactly when it
      is accepted. */
  lemma RunStep(ctx: Context, orig: Row, us: seq<Update>, base: nat, j: nat)
    requires j < |us|
    ensures var prev := Run(ctx, orig, us, base, j).logs;
      AcceptedAt(ctx, orig, us, base, j) ==>
        Run(ctx, orig, us, base, j + 1).logs == prev + [EntryFor(ctx, orig, us, base, j, base + |prev|)]
    ensures !AcceptedAt(ctx, orig, us, base, j) ==> Run(ctx, orig, us, base, j + 1).logs == Run(ctx, orig, us, base, j).logs
  {
    ApplyOneLogs(ctx, orig, Run(ctx, orig, us, base, j), us[j], base);
  }

  /** Appending the entry of update `j` to a traced log, and `j` to its
      sources, keeps it traced. */
  lemma TraceSnoc(ctx: Context, orig: Row, us: seq<Update>, base: nat, logs: seq<AuditLog>, src: seq<nat>, j: nat)
    requires j < |us| && |logs| == |src|
    requires forall k :: 0 <= k < |src| ==> src[k] < |us|
    requires forall k :: 0 <= k < |src| ==> logs[k] == EntryFor(ctx, orig, us, base, src[k], base + k)
    ensures var logs', src' := logs + [EntryFor(ctx, orig, us, base, j, base + |logs|)], src + [j];
      && |logs'| == |src'|
      && forall k :: 0 <= k < |src'| ==> logs'[k] == EntryFor(ctx, orig, us, base, src'[k], base + k)
  {
  }

  /** After `n` updates the log holds, in order, the entries of the
      accepted updates below `n`, the `k`-th at position `base + k`. */
  lemma {:induction false} RunTraced(ctx: Context, orig: Row, us: seq<Update>, base: nat, n: nat)
    requires n <= |us|
    ensures var src, logs := Sources(ctx, orig, us, base, n), Run(ctx, orig, us, base, n).logs;
      && |logs| == |src|
      && forall k :: 0 <= k < |src| ==> logs[k] == EntryFor(ctx, orig, us, base, src[k], base + k)
    decreases n
  {
    if n > 0 {
      var j := n - 1;
      RunTraced(ctx, orig, us, base, j);
      var prev := Run(ctx, orig, us, base, j);
      RunStep(ctx, orig, us, base, j);
      if AcceptedAt(ctx, orig, us, base, j) {
        TraceSnoc(ctx, orig, us, base, prev.logs, Sources(ctx, orig, us, base, j), j);
        assert Run(ctx, orig, us, base, n).logs == prev.logs + [EntryFor(ctx, orig, us, base, j, base + |prev.logs|)];
        assert Sources(ctx, orig, us, base, n) == Sources(ctx, orig, us, base, j) + [j];
      } else {
        assert Run(ctx, orig, us, base, n).logs == prev.logs;
        assert Sources(ctx, orig, us, base, n) == Sources(ctx, orig, us, base, j);
      }
    }
  }

  /** Audit entry `k` of a row is the entry of the `k`-th accepted update,
      and there is one entry per accepted update, in processing order. */
  lemma RowLogsTraced(ctx: Context, orig: Row, us: seq<Update>, base: nat)
    ensures var logs := ApplyUpdates(ctx, orig, us, base).logs;
      var src := Sources(ctx, orig, us, base, |us|);
      && |logs| == |src|
      && (forall j :: 0 <= j < |us| ==> (j in src <==> AcceptedAt(ctx, orig, us, base, j)))
      && (forall k, k' :: 0 <= k < k' < |src| ==> src[k] < src[k'])
      && forall k :: 0 <= k < |src| ==> logs[k] == EntryFor(ctx, orig, us, base, src[k], base + k)
  {
    RunTraced(ctx, orig, us, base, |us|);
    SourcesExact(ctx, orig, us, base, |us|);
    RunIsApply(ctx, orig, us, base, |us|);
    assert us[..|us|] == us;
  }

  /** After the updates, every field other than `version` holds (as a string)
      the last permitted value written to it, or its old value if none. */
  lemma {:induction false} RowFinalValues(ctx: Context, orig: Row, us: seq<Update>, base: nat, f: string)
    requires f != "version"
    ensures var o := ApplyUpdates(ctx, orig, us, base);
      Stringify(Get(o.row, f)) == match LastPermitted(ctx, orig, us, f)
        case Some(v) => Stringify(v)
        case None => Stringify(Get(orig, f))
    decreases |us|
  {
    if us != [] {
      var prev := ApplyUpdates(ctx, orig, us[..|us| - 1], base);
      var u := us[|us| - 1];
      RowFinalValues(ctx, orig, us[..|us| - 1], base, f);
      ApplyOneReads(ctx, orig, prev, u, base, f);
    }
  }

  /** One step leaves field `f` reading as the written value when it is a
      permitted write to `f`, and as before otherwise. */
  lemma ApplyOneReads(ctx: Context, orig: Row, prev: RowOutcome, u: Update, base: nat, f: string)
    requires f != "version"
    ensures Stringify(Get(ApplyOne(ctx, orig, prev, u, base).row, f))
      == if u.field == f && Access(ctx, orig, f) == Write then Stringify(Normalize(u.value)) else Stringify(Get(prev.row, f))
  {
    if u.field == f {
      SetReadsBack(prev.row, f, Normalize(u.value));
    } else {
      SetKeepsOthers(prev.row, u.field, Normalize(u.value), f);
    }
  }

  /** No update in `us` writes `version`, so only the bump can change it. */
  lemma {:induction false} RowVersionUntouched(ctx: Context, orig: Row, us: seq<Update>, base: nat)
    requires forall u :: u in us ==> u.field != "version"
    ensures ApplyUpdates(ctx, orig, us, base).row.version == orig.version
    decreases |us|
  {
    if us != [] {
      assert forall u :: u in us[..|us| - 1] ==> u in us;
      RowVersionUntouched(ctx, orig, us[..|us| - 1], base);
      var u := us[|us| - 1];
      assert u in us;
      SetKeepsOthers(ApplyUpdates(ctx, orig, us[..|us| - 1], base).row, u.field, Normalize(u.value), "version");
    }
  }

  /** A changed row gets `version + 1` exactly once and the batch time,
      however many fields changed; an unchanged row is returned as it was. */
  lemma RowRevision(ctx: Context, orig: Row, us: seq<Update>, base: nat)
    ensures var o := ApplyUpdates(ctx, orig, us, base);
      var r := FinishRow(orig, o, ctx.now);
      && (o.changed ==> r.version == o.row.version + 1 && r.updatedAt == ctx.now && |o.logs| >= 1)
      && (o.changed && (forall u :: u in us ==> u.field != "version") ==> r.version == orig.version + 1)
      && (!o.changed ==> r == orig && o.logs == [])
  {
    RowCounts(ctx, orig, us, base);
    if forall u :: u in us ==> u.field != "version" {
      RowVersionUntouched(ctx, orig, us, base);
    }
  }

  /** Writing values whose strings equal the current ones, with permission,
      changes nothing, logs nothing and counts nothing. */
  lemma {:induction false} IdempotentWrites(ctx: Context, orig: Row, us: seq<Update>, base: nat)
    requires forall u :: u in us ==>
      Access(ctx, orig, u.field) == Write && Stringify(Normalize(u.value)) == Stringify(Get(orig, u.field))
    ensures ApplyUpdates(ctx, orig, us, base) == RowOutcome(orig, false, [], 0, 0)
    decreases |us|
  {
    if us != [] {
      assert forall u :: u in us[..|us| - 1] ==> u in us;
      IdempotentWrites(ctx, orig, us[..|us| - 1], base);
      assert us[|us| - 1] in us;
    }
  }

  /** Access is decided on the pre-batch row: when a non-owner moves a DRAFT
      row to PENDING, a later write in the same batch to a field its group
      may write is still refused, though on a PENDING row it would pass. */
  lemma StatusChangeDoesNotUnlock(ctx: Context, orig: Row, f: string, v: Value, base: nat)
    requires !IsWorkspaceAdmin(ctx.user, ctx.ws)
    requires orig.status == Draft && ctx.user.id != orig.ownerId
    requires f != "status" && f !in MetaFields
    requires FindColumn(ctx.ws.columns, f).Some?
    requires ConfiguredPermission(FindColumn(ctx.ws.columns, f).value, ctx.user.groupId) == Write
    ensures var us := [Update(orig.id, "status", Str("Pending")), Update(orig.id, f, v)];
      var o := ApplyUpdates(ctx, orig, us, base);
      && o.row.status == Pending
      && Get(o.row, f) == Get(orig, f)
      && o.skipped == 1 && o.updated == 1
      && GetColumnAccess(ctx.user, o.row, f, ctx.ws) == Write
  {
    var us := [Update(orig.id, "status", Str("Pending")), Update(orig.id, f, v)];
    assert us[..1] == [us[0]];
    assert us[..1][..0] == [];
    var o0 := RowOutcome(orig, false, [], 0, 0);
    assert Access(ctx, orig, "status") == Write;
    assert Stringify(Get(orig, "status")) == "Draft";
    var o1 := ApplyOne(ctx, orig, o0, us[0], base);
    assert o1.row == Set(orig, "status", Str("Pending")) && o1.updated == 1 && o1.skipped == 0;
    SetKeepsOthers(orig, "status", Str("Pending"), f);
    assert ApplyUpdates(ctx, orig, us[..1], base) == o1;
    assert Access(ctx, orig, f) == Read;
    assert ApplyUpdates(ctx, orig, us, base) == ApplyOne(ctx, orig, o1, us[1], base);
    assert o1.row.status == Pending && o1.row.ownerId == orig.ownerId;
  }

  // ---------------------------------------------------------------------
  // The whole batch
  // ---------------------------------------------------------------------

  /** One more row: the batch over `rows[..i + 1]` extends the batch over
      `rows[..i]` by row `i` processed with the log ids that follow. */
  lemma BatchStep(ctx: Context, rows: seq<Row>, updates: seq<Update>, i: nat)
    requires i < |rows|
    ensures var p := BatchRows(ctx, rows[..i], updates);
      var o := ProcessRow(ctx, rows[i], updates, |p.logs|);
      BatchRows(ctx, rows[..i + 1], updates)
        == BatchOutcome(p.rows + [FinishRow(rows[i], o, ctx.now)], p.logs + o.logs, p.updated + o.updated, p.skipped + o.skipped)
  {
    assert rows[..i + 1][..i] == rows[..i];
  }

  /** The number of log entries the rows before index `i` produce. */
  function BaseFor(ctx: Context, rows: seq<Row>, updates: seq<Update>, i: nat): nat
    requires i <= |rows|
  {
    |BatchRows(ctx, rows[..i], updates).logs|
  }

  lemma {:induction false} BatchPrefix(ctx: Context, rows: seq<Row>, updates: seq<Update>, i: nat)
    requires i <= |rows|
    ensures var b := BatchRows(ctx, rows, updates);
      var p := BatchRows(ctx, rows[..i], updates);
      && |b.rows| == |rows|
      && b.rows[..i] == p.rows
      && p.logs <= b.logs
    decreases |rows|
  {
    if rows != [] {
      var init := rows[..|rows| - 1];
      if i == |rows| {
        assert rows[..i] == rows;
        BatchPrefix(ctx, init, updates, |init|);
        assert init[..|init|] == init;
      } else {
        assert rows[..i] == init[..i];
        BatchPrefix(ctx, init, updates, i);
      }
    }
  }

  /** Row `i` of the result is row `i` processed on its own, with the log ids
      that follow those of the rows before it. */
  lemma BatchRowAt(ctx: Context, rows: seq<Row>, updates: seq<Update>, i: nat)
    requires i < |rows|
    ensures var b := BatchRows(ctx, rows, updates);
      |b.rows| == |rows| &&
      b.rows[i] == FinishRow(rows[i], ProcessRow(ctx, rows[i], updates, BaseFor(ctx, rows, updates, i)), ctx.now)
  {
    BatchPrefix(ctx, rows, updates, i + 1);
    BatchPrefix(ctx, rows, updates, i);
    var p := BatchRows(ctx, rows[..i + 1], updates);
    assert rows[..i + 1][..i] == rows[..i];
    assert p.rows[i] == BatchRows(ctx, rows, updates).rows[..i + 1][i];
  }

  /** The batch keeps the number of rows; a row that no update names comes
      back unchanged. */
  lemma UntouchedRowsUnchanged(ctx: Context, rows: seq<Row>, updates: seq<Update>, i: nat)
    requires i < |rows|
    requires forall u :: u in updates ==> u.rowId != rows[i].id
    ensures var b := BatchRows(ctx, rows, updates); |b.rows| == |rows| && b.rows[i] == rows[i]
  {
    BatchRowAt(ctx, rows, updates, i);
    assert UpdatesFor(updates, rows[i].id) == [];
  }

  /** Batch counters: `updatedCount` is the number of new audit entries. */
  lemma {:induction false} BatchCounts(ctx: Context, rows: seq<Row>, updates: seq<Update>)
    ensures var b := BatchRows(ctx, rows, updates); b.updated == |b.logs| && |b.rows| == |rows|
    decreases |rows|
  {
    if rows != [] {
      var prev := BatchRows(ctx, rows[..|rows| - 1], updates);
      BatchCounts(ctx, rows[..|rows| - 1], updates);
      RowCounts(ctx, rows[|rows| - 1], UpdatesFor(updates, rows[|rows| - 1].id), |prev.logs|);
    }
  }

  /** The number of updates naming some row that the access check refuses on
      that row; an update naming no row is never counted. */
  function DeniedInBatch(ctx: Context, rows: seq<Row>, updates: seq<Update>): nat
    decreases |rows|
  {
    if rows == [] then 0
    else
      var row := rows[|rows| - 1];
      DeniedInBatch(ctx, rows[..|rows| - 1], updates) + CountDenied(ctx, row, UpdatesFor(updates, row.id))
  }

  lemma {:induction false} BatchSkipped(ctx: Context, rows: seq<Row>, updates: seq<Update>)
    ensures BatchRows(ctx, rows, updates).skipped == DeniedInBatch(ctx, rows, updates)
    decreases |rows|
  {
    if rows != [] {
      var prev := BatchRows(ctx, rows[..|rows| - 1], updates);
      BatchSkipped(ctx, rows[..|rows| - 1], updates);
      RowCounts(ctx, rows[|rows| - 1], UpdatesFor(updates, rows[|rows| - 1].id), |prev.logs|);
    }
  }
}
