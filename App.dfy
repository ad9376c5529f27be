/** The state-changing handlers and derived views of App.tsx: the row store
    with its batch update and the submit button, the sidebar's workspace
    filter, the active workspace, the grid's row filter and the permission
    update that the policy screen triggers. */
module App {
  import opened Types
  import opened AccessControl
  import opened Batch

  // ---------------------------------------------------------------------
  // The row store
  // ---------------------------------------------------------------------

  /** A row the "submit" button moves: a DRAFT row owned by `userId`. */
  predicate IsOwnDraft(r: Row, userId: string) {
    r.ownerId == userId && IsDraft(r.status)
  }

  /** `prev.map(r => own DRAFT ? {...r, status: PENDING, updatedAt: now} : r)`:
      every own DRAFT row, in every workspace, becomes PENDING with the new
      time and keeps its version; every other row stays as it is. */
  function SubmitDrafts(rows: seq<Row>, userId: string, now: string): (r: seq<Row>)
    ensures |r| == |rows|
    ensures forall i :: 0 <= i < |r| ==> !IsOwnDraft(r[i], userId)
    ensures forall i :: 0 <= i < |r| ==>
      && r[i].id == rows[i].id && r[i].workspaceId == rows[i].workspaceId && r[i].ownerId == rows[i].ownerId
      && r[i].version == rows[i].version && r[i].fields == rows[i].fields
    ensures forall i :: 0 <= i < |r| ==>
      if IsOwnDraft(rows[i], userId) then r[i].status == Pending && r[i].updatedAt == now else r[i] == rows[i]
  {
    seq(|rows|, i requires 0 <= i < |rows| =>
      if IsOwnDraft(rows[i], userId) then rows[i].(status := Pending, updatedAt := now) else rows[i])
  }

  /** With no own DRAFT row, submitting changes nothing. */
  lemma SubmitWithoutDrafts(rows: seq<Row>, userId: string, now: string)
    requires forall i :: 0 <= i < |rows| ==> !IsOwnDraft(rows[i], userId)
    ensures SubmitDrafts(rows, userId, now) == rows
  {
    var r := SubmitDrafts(rows, userId, now);
    assert forall i :: 0 <= i < |rows| ==> r[i] == rows[i];
  }

  /** Submitting a second time changes nothing. */
  lemma SubmitIdempotent(rows: seq<Row>, userId: string, now: string, later: string)
    ensures SubmitDrafts(SubmitDrafts(rows, userId, now), userId, later) == SubmitDrafts(rows, userId, now)
  {
    SubmitWithoutDrafts(SubmitDrafts(rows, userId, now), userId, later);
  }

  /** One iteration of the `rowUpdates.forEach`: the write is checked
      against `row` as it was, compared with the row built so far, logged
      into the batch buffer `newLogs` and counted. */
  method ApplyUpdate(ctx: Context, row: Row, update: Update, ghost base: nat, ghost prev: RowOutcome,
                     newRow0: Row, changed0: bool, newLogs0: seq<AuditLog>, logs0: seq<AuditLog>, up0: nat, sk0: nat)
    returns (newRow: Row, changed: bool, newLogs: seq<AuditLog>, updatedCount: nat, skippedCount: nat)
    requires base == |logs0|
    requires newRow0 == prev.row && changed0 == prev.changed && newLogs0 == logs0 + prev.logs
    ensures var o := ApplyOne(ctx, row, prev, update, base);
      && newRow == o.row && changed == o.changed && newLogs == logs0 + o.logs
      && updatedCount - up0 == o.updated - prev.updated && skippedCount - sk0 == o.skipped - prev.skipped
  {
    newRow, changed, newLogs, updatedCount, skippedCount := newRow0, changed0, newLogs0, up0, sk0;
    var access := GetColumnAccess(ctx.user, row, update.field, ctx.ws);
    if access == Write {
      var finalVal := Normalize(update.value);
      var oldS := Stringify(Get(newRow, update.field));
      if oldS != Stringify(finalVal) {
        var entry := AuditLog(ctx.logId(|newLogs|), row.id, ctx.wsId, ctx.user.name,
                              update.field, oldS, Stringify(finalVal), ctx.now);
        assert newLogs + [entry] == logs0 + (prev.logs + [entry]);
        newLogs := newLogs + [entry];
        newRow := Set(newRow, update.field, finalVal);
        changed := true;
        updatedCount := updatedCount + 1;
      }
    } else {
      skippedCount := skippedCount + 1;
    }
  }

  /** The `rowUpdates.forEach` of one row. */
  method ApplyRowUpdates(ctx: Context, row: Row, rowUpdates: seq<Update>, logs0: seq<AuditLog>, up0: nat, sk0: nat)
    returns (newRow: Row, changed: bool, newLogs: seq<AuditLog>, updatedCount: nat, skippedCount: nat)
    ensures var o := ApplyUpdates(ctx, row, rowUpdates, |logs0|);
      && newRow == o.row && changed == o.changed && newLogs == logs0 + o.logs
      && updatedCount == up0 + o.updated && skippedCount == sk0 + o.skipped
  {
    ghost var base := |logs0|;
    newRow, changed, newLogs, updatedCount, skippedCount := row, false, logs0, up0, sk0;
    assert logs0 + [] == logs0;
    var j := 0;
    while j < |rowUpdates|
      invariant 0 <= j <= |rowUpdates|
      invariant var o := ApplyUpdates(ctx, row, rowUpdates[..j], base);
        && newRow == o.row && changed == o.changed && newLogs == logs0 + o.logs
        && updatedCount == up0 + o.updated && skippedCount == sk0 + o.skipped
    {
      ghost var o := ApplyUpdates(ctx, row, rowUpdates[..j], base);
      ApplyStep(ctx, row, rowUpdates, j, base);
      var u, s;
      newRow, changed, newLogs, u, s := ApplyUpdate(ctx, row, rowUpdates[j], base, o,
                                                    newRow, changed, newLogs, logs0, updatedCount, skippedCount);
      updatedCount, skippedCount := u, s;
      j := j + 1;
    }
    assert rowUpdates[..j] == rowUpdates;
  }

  /** The callback of `prev.map(row => ...)`: a row without updates comes
      back as it was; otherwise its updates are applied and, if one changed
      it, the new row gets the version bump and the batch time. */
  method MapRow(ctx: Context, row: Row, updates: seq<Update>, logs0: seq<AuditLog>, up0: nat, sk0: nat)
    returns (newRow: Row, newLogs: seq<AuditLog>, updatedCount: nat, skippedCount: nat)
    ensures var o := ProcessRow(ctx, row, updates, |logs0|);
      && newRow == FinishRow(row, o, ctx.now) && newLogs == logs0 + o.logs
      && updatedCount == up0 + o.updated && skippedCount == sk0 + o.skipped
  {
    var rowUpdates := UpdatesFor(updates, row.id);
    if |rowUpdates| == 0 {
      assert logs0 + [] == logs0;
      return row, logs0, up0, sk0;
    }
    var changed;
    newRow, changed, newLogs, updatedCount, skippedCount := ApplyRowUpdates(ctx, row, rowUpdates, logs0, up0, sk0);
    if changed {
      newRow := newRow.(version := newRow.version + 1, updatedAt := ctx.now);
    } else {
      newRow := row;
    }
  }

  /** The rows of every workspace and the audit trail. */
  class Store {
    var rows: seq<Row>
    var logs: seq<AuditLog>

    constructor (rows0: seq<Row>, logs0: seq<AuditLog>)
      ensures rows == rows0 && logs == logs0
    {
      rows := rows0;
      logs := logs0;
    }

    /** `performBatchUpdate(updates)`: the rows become the batch result, its
        audit entries are appended after the existing ones, and the two
        counters are returned. */
    method PerformBatchUpdate(ctx: Context, updates: seq<Update>) returns (updatedCount: nat, skippedCount: nat)
      modifies this
      ensures var b := BatchRows(ctx, old(rows), updates);
        && rows == b.rows
        && logs == old(logs) + b.logs
        && updatedCount == b.updated
        && skippedCount == b.skipped
    {
      var prev := rows;
      var newRows: seq<Row> := [];
      var newLogs: seq<AuditLog> := [];
      updatedCount, skippedCount := 0, 0;
      var i := 0;
      while i < |prev|
        invariant 0 <= i <= |prev|
        invariant prev == old(rows) && logs == old(logs)
        invariant newRows == BatchRows(ctx, prev[..i], updates).rows
        invariant newLogs == BatchRows(ctx, prev[..i], updates).logs
        invariant updatedCount == BatchRows(ctx, prev[..i], updates).updated
        invariant skippedCount == BatchRows(ctx, prev[..i], updates).skipped
      {
        BatchStep(ctx, prev, updates, i);
        var newRow;
        newRow, newLogs, updatedCount, skippedCount := MapRow(ctx, prev[i], updates, newLogs, updatedCount, skippedCount);
        newRows := newRows + [newRow];
        i := i + 1;
      }
      assert prev[..i] == prev;
      rows := newRows;
      if |newLogs| > 0 {
        logs := logs + newLogs;
      } else {
        assert logs + newLogs == logs;
      }
    }

    /** The "submit" button: when the user owns some DRAFT row, all of them
        become PENDING; no version bump and no audit entry. */
    method Submit(userId: string, now: string)
      modifies this
      ensures rows == SubmitDrafts(old(rows), userId, now)
      ensures logs == old(logs)
    {
      if exists i :: 0 <= i < |rows| && IsOwnDraft(rows[i], userId) {
        rows := SubmitDrafts(rows, userId, now);
      } else {
        SubmitWithoutDrafts(rows, userId, now);
      }
    }
  }

  // ---------------------------------------------------------------------
  // Sidebar and grid
  // ---------------------------------------------------------------------

  /** The sidebar rule for one workspace. */
  predicate SidebarVisible(user: User, ws: Workspace) {
    || user.role == Admin
    || ws.activeGroupIds.None?
    || |ws.activeGroupIds.value| == 0
    || user.groupId in ws.activeGroupIds.value
  }

  /** `visibleWorkspaces`: the workspaces of the sidebar, in their order. */
  function VisibleWorkspaces(wss: seq<Workspace>, user: User): (r: seq<Workspace>)
    ensures |r| <= |wss|
    ensures forall w :: w in r <==> w in wss && SidebarVisible(user, w)
  {
    if wss == [] then []
    else (if SidebarVisible(user, wss[0]) then [wss[0]] else []) + VisibleWorkspaces(wss[1..], user)
  }

  /** The sidebar filter keeps the workspaces' order: it distributes over
      concatenation and keeps or drops a single workspace by the rule. */
  lemma {:induction false} VisibleWorkspacesAppend(a: seq<Workspace>, b: seq<Workspace>, user: User)
    ensures VisibleWorkspaces(a + b, user) == VisibleWorkspaces(a, user) + VisibleWorkspaces(b, user)
    decreases |a|
  {
    if a == [] {
      assert a + b == b;
    } else {
      assert (a + b)[1..] == a[1..] + b;
      VisibleWorkspacesAppend(a[1..], b, user);
    }
  }

  lemma VisibleWorkspacesCons(w: Workspace, rest: seq<Workspace>, user: User)
    ensures VisibleWorkspaces([w] + rest, user) == (if SidebarVisible(user, w) then [w] else []) + VisibleWorkspaces(rest, user)
  {
    assert ([w] + rest)[1..] == rest;
  }

  lemma VisibleWorkspacesSingle(w: Workspace, user: User)
    ensures VisibleWorkspaces([w], user) == if SidebarVisible(user, w) then [w] else []
  {
    assert [w][1..] == [];
  }

  /** A global ADMIN sees the whole list; a workspace without an active
      group list, or with an empty one, is in everybody's list, and a listed
      group's members see it. */
  lemma {:induction false} AdminSeesEveryWorkspace(wss: seq<Workspace>, user: User)
    requires user.role == Admin
    ensures VisibleWorkspaces(wss, user) == wss
  {
    if wss != [] {
      AdminSeesEveryWorkspace(wss[1..], user);
    }
  }

  /** For a user who is not a global ADMIN a workspace with a nonempty group
      list is hidden exactly when the user's group is not on it. */
  lemma SidebarHidesOtherGroups(wss: seq<Workspace>, user: User, w: Workspace)
    requires user.role != Admin
    requires w.activeGroupIds.Some? && |w.activeGroupIds.value| > 0
    requires w in wss
    ensures w in VisibleWorkspaces(wss, user) <==> user.groupId in w.activeGroupIds.value
  {
  }

  /** `workspaces.find(ws => ws.id === id)`: nothing when no workspace has
      the id, and otherwise the first one that has it. */
  function FindWorkspace(wss: seq<Workspace>, id: string): (r: Option<Workspace>)
    ensures r.None? <==> forall w :: w in wss ==> w.id != id
    ensures r.Some? ==> r.value in wss && r.value.id == id
    ensures r.Some? ==> FirstWithId(wss, id, r.value)
  {
    if wss == [] then None
    else if wss[0].id == id then Some(wss[0])
    else
      var r := FindWorkspace(wss[1..], id);
      if r.Some? then
        FirstWithIdShift(wss, id, r.value);
        r
      else r
  }

  /** `w` is the first workspace of `wss` whose id is `id`. */
  predicate FirstWithId(wss: seq<Workspace>, id: string, w: Workspace) {
    exists i :: 0 <= i < |wss| && wss[i] == w && w.id == id && forall j :: 0 <= j < i ==> wss[j].id != id
  }

  lemma FirstWithIdShift(wss: seq<Workspace>, id: string, w: Workspace)
    requires wss != [] && wss[0].id != id
    requires FirstWithId(wss[1..], id, w)
    ensures FirstWithId(wss, id, w)
  {
    var i :| 0 <= i < |wss[1..]| && wss[1..][i] == w && w.id == id && forall j :: 0 <= j < i ==> wss[1..][j].id != id;
    assert wss[i + 1] == w;
    forall j | 0 <= j < i + 1 ensures wss[j].id != id {
      if j > 0 { assert wss[j] == wss[1..][j - 1]; }
    }
  }

  /** `activeWorkspace`: the first workspace with the active id, else the
      first one, and none only when there are no workspaces. */
  function ActiveWorkspace(wss: seq<Workspace>, activeId: string): (r: Option<Workspace>)
    ensures r.None? <==> wss == []
    ensures r.Some? ==> r.value in wss
    ensures (exists w :: w in wss && w.id == activeId) ==> r.Some? && FirstWithId(wss, activeId, r.value)
    ensures wss != [] && (forall w :: w in wss ==> w.id != activeId) ==> r == Some(wss[0])
  {
    match FindWorkspace(wss, activeId)
    case Some(w) => Some(w)
    case None => if wss == [] then None else Some(wss[0])
  }

  /** The two `filter`s of `filteredData` over `rows`; `matches` stands for
      the case-insensitive search over the row's values, and the visibility
      check takes the workspace argument `ws`. */
  function GridRows(rows: seq<Row>, activeId: string, user: User, users: seq<User>, ws: Option<Workspace>,
                    ghost rank: map<string, nat>, matches: Row -> bool): (r: seq<Row>)
    requires user.role == Leader ==> Ranked(users, rank)
  {
    if rows == [] then []
    else
      var x := rows[0];
      (if x.workspaceId == activeId && CanViewRow(user, x, users, ws, rank) && matches(x) then [x] else [])
      + GridRows(rows[1..], activeId, user, users, ws, rank, matches)
  }

  /** A row is in the grid exactly when it belongs to the active workspace,
      the user may view it and it matches the search. */
  lemma {:induction false} GridRowsMember(rows: seq<Row>, activeId: string, user: User, users: seq<User>,
                                          ws: Option<Workspace>, rank: map<string, nat>, matches: Row -> bool)
    requires user.role == Leader ==> Ranked(users, rank)
    ensures forall x :: x in GridRows(rows, activeId, user, users, ws, rank, matches) <==>
      x in rows && x.workspaceId == activeId && CanViewRow(user, x, users, ws, rank) && matches(x)
    decreases |rows|
  {
    if rows != [] {
      GridRowsMember(rows[1..], activeId, user, users, ws, rank, matches);
      assert rows == [rows[0]] + rows[1..];
    }
  }

  /** The grid's filters keep the rows' order, which the delete and paste
      handlers rely on when they address `filteredData[r]`: the filter
      distributes over concatenation and keeps or drops a single row. */
  lemma {:induction false} GridRowsAppend(a: seq<Row>, b: seq<Row>, activeId: string, user: User, users: seq<User>,
                                          ws: Option<Workspace>, rank: map<string, nat>, matches: Row -> bool)
    requires user.role == Leader ==> Ranked(users, rank)
    ensures GridRows(a + b, activeId, user, users, ws, rank, matches)
      == GridRows(a, activeId, user, users, ws, rank, matches) + GridRows(b, activeId, user, users, ws, rank, matches)
    decreases |a|
  {
    if a == [] {
      assert a + b == b;
    } else {
      var x, t := a[0], a[1..];
      var h := if x.workspaceId == activeId && CanViewRow(user, x, users, ws, rank) && matches(x) then [x] else [];
      calc {
        GridRows(a + b, activeId, user, users, ws, rank, matches);
        { assert a + b == [x] + (t + b); GridRowsCons(x, t + b, activeId, user, users, ws, rank, matches); }
        h + GridRows(t + b, activeId, user, users, ws, rank, matches);
        { GridRowsAppend(t, b, activeId, user, users, ws, rank, matches); }
        h + (GridRows(t, activeId, user, users, ws, rank, matches) + GridRows(b, activeId, user, users, ws, rank, matches));
        (h + GridRows(t, activeId, user, users, ws, rank, matches)) + GridRows(b, activeId, user, users, ws, rank, matches);
        { assert a == [x] + t; GridRowsCons(x, t, activeId, user, users, ws, rank, matches); }
        GridRows(a, activeId, user, users, ws, rank, matches) + GridRows(b, activeId, user, users, ws, rank, matches);
      }
    }
  }

  lemma GridRowsCons(x: Row, rest: seq<Row>, activeId: string, user: User, users: seq<User>,
                     ws: Option<Workspace>, rank: map<string, nat>, matches: Row -> bool)
    requires user.role == Leader ==> Ranked(users, rank)
    ensures GridRows([x] + rest, activeId, user, users, ws, rank, matches)
      == (if x.workspaceId == activeId && CanViewRow(user, x, users, ws, rank) && matches(x) then [x] else [])
         + GridRows(rest, activeId, user, users, ws, rank, matches)
  {
    assert ([x] + rest)[1..] == rest;
  }

  lemma GridRowsSingle(x: Row, activeId: string, user: User, users: seq<User>,
                       ws: Option<Workspace>, rank: map<string, nat>, matches: Row -> bool)
    requires user.role == Leader ==> Ranked(users, rank)
    ensures GridRows([x], activeId, user, users, ws, rank, matches)
      == if x.workspaceId == activeId && CanViewRow(user, x, users, ws, rank) && matches(x) then [x] else []
  {
    assert [x][1..] == [];
  }

  /** `filteredData`: nothing without an active workspace, otherwise the rows
      of the active workspace that `canViewRow(currentUser, row, users)`
      admits, called without the workspace, and that match the search. */
  function FilteredData(rows: seq<Row>, active: Option<Workspace>, activeId: string, user: User, users: seq<User>,
                        ghost rank: map<string, nat>, matches: Row -> bool): (r: seq<Row>)
    requires user.role == Leader ==> Ranked(users, rank)
    ensures active.None? ==> r == []
    ensures active.Some? ==> forall x :: x in r <==>
      x in rows && x.workspaceId == activeId && CanViewRow(user, x, users, None, rank) && matches(x)
  {
    if active.None? then []
    else
      GridRowsMember(rows, activeId, user, users, None, rank, matches);
      GridRows(rows, activeId, user, users, None, rank, matches)
  }

  /** In the grid as written, a MEMBER sees only its own rows, even when it
      administers the active workspace. */
  lemma GridShowsMemberOwnRows(rows: seq<Row>, active: Option<Workspace>, activeId: string, user: User,
                               users: seq<User>, rank: map<string, nat>, matches: Row -> bool)
    requires user.role == Member
    ensures forall x :: x in FilteredData(rows, active, activeId, user, users, rank, matches) ==> x.ownerId == user.id
  {
    forall x | x in FilteredData(rows, active, activeId, user, users, rank, matches) ensures x.ownerId == user.id {
      MemberSeesOnlyOwnRows(user, x, users, None, rank);
    }
  }

  /** A MEMBER listed as admin of a workspace may write every cell of another
      user's row there, even `version`, which only an administrator may
      write, yet the grid as written does not show that row. */
  lemma WorkspaceAdminMissesRows()
    ensures var user := User("u1", "Ann", Member, "G-GENERAL", None);
      var ws := Workspace("W1", "Ops", "Layout", [], None, Some(["u1"]));
      var row := Row("R1", "W1", Pending, "u2", 1, "t0", map[]);
      && GetColumnAccess(user, row, "version", ws) == Write
      && GetColumnAccess(user, row, "version", ws.(adminIds := None)) == Read
      && CanViewRow(user, row, [], Some(ws), map[])
      && FilteredData([row], Some(ws), "W1", user, [], map[], _ => true) == []
  {
    var user := User("u1", "Ann", Member, "G-GENERAL", None);
    var row := Row("R1", "W1", Pending, "u2", 1, "t0", map[]);
    var ws := Workspace("W1", "Ops", "Layout", [], None, Some(["u1"]));
    assert !CanViewRow(user, row, [], None, map[]);
    assert GridRows([row], "W1", user, [], None, map[], _ => true)
      == [] + GridRows([], "W1", user, [], None, map[], _ => true);
  }

  /** The grid with the workspace passed to `canViewRow`, as its comment asks
      of callers: the same rows as before plus, for a workspace admin, every
      row of the workspace that matches the search. */
  function FilteredDataInWorkspace(rows: seq<Row>, active: Option<Workspace>, activeId: string, user: User,
                                   users: seq<User>, ghost rank: map<string, nat>, matches: Row -> bool): (r: seq<Row>)
    requires user.role == Leader ==> Ranked(users, rank)
    ensures active.None? ==> r == []
    ensures active.Some? ==> forall x :: x in r <==>
      x in rows && x.workspaceId == activeId && CanViewRow(user, x, users, active, rank) && matches(x)
  {
    if active.None? then []
    else
      GridRowsMember(rows, activeId, user, users, active, rank, matches);
      GridRows(rows, activeId, user, users, active, rank, matches)
  }

  /** Both grids, as written and corrected, list their rows in the order of
      the row store. */
  lemma FilteredDataAppend(a: seq<Row>, b: seq<Row>, active: Option<Workspace>, activeId: string, user: User,
                           users: seq<User>, rank: map<string, nat>, matches: Row -> bool)
    requires user.role == Leader ==> Ranked(users, rank)
    ensures FilteredData(a + b, active, activeId, user, users, rank, matches)
      == FilteredData(a, active, activeId, user, users, rank, matches) + FilteredData(b, active, activeId, user, users, rank, matches)
    ensures FilteredDataInWorkspace(a + b, active, activeId, user, users, rank, matches)
      == FilteredDataInWorkspace(a, active, activeId, user, users, rank, matches)
      + FilteredDataInWorkspace(b, active, activeId, user, users, rank, matches)
  {
    GridRowsAppend(a, b, activeId, user, users, None, rank, matches);
    GridRowsAppend(a, b, activeId, user, users, active, rank, matches);
  }

  lemma WorkspaceAdminSeesWorkspaceRows(rows: seq<Row>, ws: Workspace, activeId: string, user: User,
                                        users: seq<User>, rank: map<string, nat>, matches: Row -> bool)
    requires user.role == Leader ==> Ranked(users, rank)
    ensures forall x :: x in FilteredData(rows, Some(ws), activeId, user, users, rank, matches) ==>
      x in FilteredDataInWorkspace(rows, Some(ws), activeId, user, users, rank, matches)
    ensures IsWorkspaceAdmin(user, ws) ==> forall x ::
      x in FilteredDataInWorkspace(rows, Some(ws), activeId, user, users, rank, matches) <==>
      x in rows && x.workspaceId == activeId && matches(x)
  {
    forall x | x in FilteredData(rows, Some(ws), activeId, user, users, rank, matches)
      ensures x in FilteredDataInWorkspace(rows, Some(ws), activeId, user, users, rank, matches)
    {
      WorkspaceNeverHides(user, x, users, ws, rank);
    }
  }

  // ---------------------------------------------------------------------
  // The permission matrix update (`onUpdatePermission`)
  // ---------------------------------------------------------------------

  /** `{...col, groupPermissions: {...col.groupPermissions, [gid]: level}}`. */
  function SetGroupPermission(col: Column, gid: string, level: AccessLevel): (c: Column)
    ensures ConfiguredPermission(c, gid) == level
    ensures forall g :: g != gid ==> ConfiguredPermission(c, g) == ConfiguredPermission(col, g)
    ensures c.groupPermissions.Some? && c == col.(groupPermissions := c.groupPermissions)
  {
    col.(groupPermissions := Some(col.groupPermissions.GetOr(map[])[gid := level]))
  }

  /** `ws.columns.map(col => col.field !== field ? col : SetGroupPermission(col, ...))`. */
  function SetColumnPermission(cols: seq<Column>, field: string, gid: string, level: AccessLevel): (r: seq<Column>)
    ensures |r| == |cols|
    ensures forall j :: 0 <= j < |cols| ==> r[j].field == cols[j].field
    ensures forall j :: 0 <= j < |cols| && cols[j].field != field ==> r[j] == cols[j]
    ensures forall j :: 0 <= j < |cols| && cols[j].field == field ==> r[j] == SetGroupPermission(cols[j], gid, level)
  {
    seq(|cols|, j requires 0 <= j < |cols| =>
      if cols[j].field != field then cols[j] else SetGroupPermission(cols[j], gid, level))
  }

  /** `onUpdatePermission(wsId, field, gid, level)`. */
  function UpdatePermission(wss: seq<Workspace>, wsId: string, field: string, gid: string, level: AccessLevel): (r: seq<Workspace>)
    ensures |r| == |wss|
    ensures forall i :: 0 <= i < |wss| && wss[i].id != wsId ==> r[i] == wss[i]
    ensures forall i :: 0 <= i < |wss| && wss[i].id == wsId ==>
      r[i] == wss[i].(columns := SetColumnPermission(wss[i].columns, field, gid, level))
  {
    seq(|wss|, i requires 0 <= i < |wss| =>
      if wss[i].id != wsId then wss[i] else wss[i].(columns := SetColumnPermission(wss[i].columns, field, gid, level)))
  }

  /** The lookup `columns.find` sees the updated column in place of the old one. */
  lemma {:induction false} FindUpdatedColumn(cols: seq<Column>, field: string, f: string, gid: string, level: AccessLevel)
    ensures FindColumn(SetColumnPermission(cols, field, gid, level), f) ==
      match FindColumn(cols, f)
      case None => None
      case Some(c) => Some(if f == field then SetGroupPermission(c, gid, level) else c)
  {
    if cols != [] {
      var r := SetColumnPermission(cols, field, gid, level);
      assert r[1..] == SetColumnPermission(cols[1..], field, gid, level);
      FindUpdatedColumn(cols[1..], field, f, gid, level);
    }
  }

  /** After setting group `gid` of column `field` to `level`, a member of that
      group who does not administer the workspace gets `level` on that field,
      through the lifecycle lock; other groups keep their access. */
  lemma PermissionTakesEffect(wss: seq<Workspace>, i: nat, field: string, gid: string, level: AccessLevel,
                              user: User, row: Row)
    requires i < |wss|
    requires !IsWorkspaceAdmin(user, wss[i])
    requires field != "status" && field !in MetaFields
    requires FindColumn(wss[i].columns, field).Some?
    ensures var ws' := UpdatePermission(wss, wss[i].id, field, gid, level)[i];
      GetColumnAccess(user, row, field, ws') ==
        if user.groupId == gid then LifecycleLock(level, user.id == row.ownerId, row.status)
        else GetColumnAccess(user, row, field, wss[i])
  {
    FindUpdatedColumn(wss[i].columns, field, field, gid, level);
  }
}
