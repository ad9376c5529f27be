/** Row visibility and column access (components/AccessControl.tsx): the
    subordinate closure over `managerId`, workspace-admin detection, the
    first-match-wins visibility chain and the column permission matrix with
    its lifecycle lock. */
module AccessControl {
  import opened Types

  // ---------------------------------------------------------------------
  // The manager graph
  // ---------------------------------------------------------------------

  /** Some user record with id `x` names `m` as its manager. */
  ghost predicate ReportsTo(users: seq<User>, x: string, m: string) {
    exists u :: u in users && u.id == x && u.managerId == Some(m)
  }

  /** `c` is a reporting chain: each id reports directly to the next one. */
  ghost predicate IsChain(users: seq<User>, c: seq<string>) {
    |c| >= 2 && forall i :: 0 <= i < |c| - 1 ==> ReportsTo(users, c[i], c[i + 1])
  }

  /** The manager chain of `x` reaches `leader` in one or more steps. */
  ghost predicate Reaches(users: seq<User>, x: string, leader: string) {
    exists c :: IsChain(users, c) && c[0] == x && c[|c| - 1] == leader
  }

  /** Acyclicity of the manager graph, witnessed by a ranking in which every
      user ranks strictly below its manager. */
  ghost predicate Ranked(users: seq<User>, rank: map<string, nat>) {
    forall u :: u in users && u.managerId.Some? ==>
      u.id in rank && u.managerId.value in rank && rank[u.id] < rank[u.managerId.value]
  }

  ghost function RankOf(rank: map<string, nat>, id: string): nat {
    if id in rank then rank[id] else 0
  }

  /** `allUsers.filter(u => u.managerId === leaderId).map(u => u.id)`. */
  function DirectReports(users: seq<User>, leaderId: string): (r: seq<string>)
    ensures forall x :: x in r <==> ReportsTo(users, x, leaderId)
  {
    if users == [] then []
    else
      var rest := DirectReports(users[1..], leaderId);
      assert forall x :: ReportsTo(users[1..], x, leaderId) ==> ReportsTo(users, x, leaderId) by {
        forall x | ReportsTo(users[1..], x, leaderId) ensures ReportsTo(users, x, leaderId) {
          var u :| u in users[1..] && u.id == x && u.managerId == Some(leaderId);
          assert u in users;
        }
      }
      assert forall x :: ReportsTo(users, x, leaderId) ==>
        (users[0].id == x && users[0].managerId == Some(leaderId)) || ReportsTo(users[1..], x, leaderId) by {
        forall x | ReportsTo(users, x, leaderId)
          ensures (users[0].id == x && users[0].managerId == Some(leaderId)) || ReportsTo(users[1..], x, leaderId)
        {
          var u :| u in users && u.id == x && u.managerId == Some(leaderId);
          if u != users[0] { assert u in users[1..]; }
        }
      }
      (if users[0].managerId == Some(leaderId) then [users[0].id] else []) + rest
  }

  lemma DirectReportsRankBelow(users: seq<User>, leaderId: string, rank: map<string, nat>)
    requires Ranked(users, rank)
    ensures forall d :: d in DirectReports(users, leaderId) ==> RankOf(rank, d) < RankOf(rank, leaderId)
  {
    forall d | d in DirectReports(users, leaderId) ensures RankOf(rank, d) < RankOf(rank, leaderId) {
      var u :| u in users && u.id == d && u.managerId == Some(leaderId);
    }
  }

  /** The value of `getAllSubordinates(leaderId, allUsers)`: the direct
      reports, followed by the subordinates of each direct report in turn. */
  function Subordinates(users: seq<User>, leaderId: string, ghost rank: map<string, nat>): seq<string>
    requires Ranked(users, rank)
    decreases RankOf(rank, leaderId), 1, 0
  {
    var direct := DirectReports(users, leaderId);
    DirectReportsRankBelow(users, leaderId, rank);
    direct + SubordinatesOfAll(users, direct, RankOf(rank, leaderId), rank)
  }

  /** The subordinates of every id of `ds`, concatenated in order. */
  function SubordinatesOfAll(users: seq<User>, ds: seq<string>, ghost bound: nat, ghost rank: map<string, nat>): seq<string>
    requires Ranked(users, rank)
    requires forall d :: d in ds ==> RankOf(rank, d) < bound
    decreases bound, 0, |ds|
  {
    if ds == [] then []
    else SubordinatesOfAll(users, ds[..|ds| - 1], bound, rank) + Subordinates(users, ds[|ds| - 1], rank)
  }

  lemma {:induction false} SubordinatesOfAllMember(users: seq<User>, ds: seq<string>, bound: nat, rank: map<string, nat>, x: string)
    requires Ranked(users, rank)
    requires forall d :: d in ds ==> RankOf(rank, d) < bound
    ensures x in SubordinatesOfAll(users, ds, bound, rank) <==> exists d :: d in ds && x in Subordinates(users, d, rank)
    decreases |ds|
  {
    if ds != [] {
      var init := ds[..|ds| - 1];
      var last := ds[|ds| - 1];
      assert ds == init + [last];
      assert SubordinatesOfAll(users, ds, bound, rank)
        == SubordinatesOfAll(users, init, bound, rank) + Subordinates(users, last, rank);
      SubordinatesOfAllMember(users, init, bound, rank, x);
      if x in SubordinatesOfAll(users, ds, bound, rank) {
        if x in Subordinates(users, last, rank) {
          assert last in ds;
        } else {
          var d :| d in init && x in Subordinates(users, d, rank);
          assert d in ds;
        }
      }
      if exists d :: d in ds && x in Subordinates(users, d, rank) {
        var d :| d in ds && x in Subordinates(users, d, rank);
        if d != last {
          assert d in init;
        }
      }
    }
  }

  lemma ChainExtend(users: seq<User>, c: seq<string>, m: string)
    requires IsChain(users, c)
    requires ReportsTo(users, c[|c| - 1], m)
    ensures IsChain(users, c + [m])
  {
    var c' := c + [m];
    forall i | 0 <= i < |c'| - 1 ensures ReportsTo(users, c'[i], c'[i + 1]) {
      if i < |c| - 1 { assert c'[i] == c[i] && c'[i + 1] == c[i + 1]; }
    }
  }

  lemma ChainReaches(users: seq<User>, c: seq<string>)
    requires IsChain(users, c)
    ensures Reaches(users, c[0], c[|c| - 1])
  {
  }

  /** Every id that `Subordinates` returns reports to the leader, directly or
      through a chain of managers. */
  lemma {:induction false} SubordinatesSound(users: seq<User>, leaderId: string, rank: map<string, nat>, x: string)
    requires Ranked(users, rank)
    requires x in Subordinates(users, leaderId, rank)
    ensures Reaches(users, x, leaderId)
    decreases RankOf(rank, leaderId)
  {
    var direct := DirectReports(users, leaderId);
    DirectReportsRankBelow(users, leaderId, rank);
    assert Subordinates(users, leaderId, rank) == direct + SubordinatesOfAll(users, direct, RankOf(rank, leaderId), rank);
    if x in direct {
      var c := [x, leaderId];
      assert ReportsTo(users, c[0], c[1]);
      ChainReaches(users, c);
    } else {
      SubordinatesOfAllMember(users, direct, RankOf(rank, leaderId), rank, x);
      var d :| d in direct && x in Subordinates(users, d, rank);
      SubordinatesSound(users, d, rank, x);
      var c :| IsChain(users, c) && c[0] == x && c[|c| - 1] == d;
      assert ReportsTo(users, d, leaderId);
      ChainExtend(users, c, leaderId);
      var c' := c + [leaderId];
      assert c'[0] == x && c'[|c'| - 1] == leaderId;
      ChainReaches(users, c');
    }
  }

  /** Every id whose chain reaches the leader is among its `Subordinates`. */
  lemma {:induction false} SubordinatesComplete(users: seq<User>, c: seq<string>, rank: map<string, nat>)
    requires Ranked(users, rank)
    requires IsChain(users, c)
    ensures c[0] in Subordinates(users, c[|c| - 1], rank)
    decreases |c|
  {
    var leaderId := c[|c| - 1];
    var k := c[|c| - 2];
    var direct := DirectReports(users, leaderId);
    DirectReportsRankBelow(users, leaderId, rank);
    assert ReportsTo(users, k, leaderId);
    assert k in direct;
    if |c| > 2 {
      var c' := c[..|c| - 1];
      assert IsChain(users, c') by {
        forall i | 0 <= i < |c'| - 1 ensures ReportsTo(users, c'[i], c'[i + 1]) {
          assert c'[i] == c[i] && c'[i + 1] == c[i + 1];
        }
      }
      SubordinatesComplete(users, c', rank);
      SubordinatesOfAllMember(users, direct, RankOf(rank, leaderId), rank, c[0]);
    }
  }

  /** On an acyclic manager graph the subordinates of `leaderId` are exactly
      the users whose manager chain reaches `leaderId`. */
  lemma SubordinatesExact(users: seq<User>, leaderId: string, rank: map<string, nat>)
    requires Ranked(users, rank)
    ensures forall x :: x in Subordinates(users, leaderId, rank) <==> Reaches(users, x, leaderId)
  {
    forall x ensures x in Subordinates(users, leaderId, rank) <==> Reaches(users, x, leaderId) {
      if x in Subordinates(users, leaderId, rank) {
        SubordinatesSound(users, leaderId, rank, x);
      }
      if Reaches(users, x, leaderId) {
        var c :| IsChain(users, c) && c[0] == x && c[|c| - 1] == leaderId;
        SubordinatesComplete(users, c, rank);
      }
    }
  }

  /** One more direct report appends its subordinates. */
  lemma SubordinatesOfAllSnoc(users: seq<User>, ds: seq<string>, i: nat, bound: nat, rank: map<string, nat>)
    requires Ranked(users, rank)
    requires forall d :: d in ds ==> RankOf(rank, d) < bound
    requires i < |ds|
    ensures SubordinatesOfAll(users, ds[..i + 1], bound, rank)
      == SubordinatesOfAll(users, ds[..i], bound, rank) + Subordinates(users, ds[i], rank)
  {
    assert ds[..i + 1][..i] == ds[..i];
  }

  /** `getAllSubordinates`: collects the direct reports, then appends the
      subordinates of each of them, one recursive call per direct report. */
  method GetAllSubordinates(users: seq<User>, leaderId: string, ghost rank: map<string, nat>) returns (all: seq<string>)
    requires Ranked(users, rank)
    ensures all == Subordinates(users, leaderId, rank)
    decreases RankOf(rank, leaderId)
  {
    var direct := DirectReports(users, leaderId);
    DirectReportsRankBelow(users, leaderId, rank);
    all := direct;
    var i := 0;
    while i < |direct|
      invariant 0 <= i <= |direct|
      invariant all == direct + SubordinatesOfAll(users, direct[..i], RankOf(rank, leaderId), rank)
    {
      var sub := GetAllSubordinates(users, direct[i], rank);
      SubordinatesOfAllSnoc(users, direct, i, RankOf(rank, leaderId), rank);
      all := all + sub;
      i := i + 1;
    }
    assert direct[..|direct|] == direct;
  }

  // ---------------------------------------------------------------------
  // Workspace admins and row visibility
  // ---------------------------------------------------------------------

  /** `isWorkspaceAdmin`: global ADMIN, or listed in `adminIds`. */
  function IsWorkspaceAdmin(user: User, ws: Workspace): bool {
    user.role == Admin || (ws.adminIds.Some? && user.id in ws.adminIds.value)
  }

  /** Without `adminIds` only global admins are workspace admins. */
  lemma WorkspaceAdminWithoutList(user: User, ws: Workspace)
    requires ws.adminIds.None?
    ensures IsWorkspaceAdmin(user, ws) <==> user.role == Admin
  {
  }

  /** The one path of `canViewRow` that walks the manager graph: a LEADER
      looking at another user's row outside a workspace it administers. */
  predicate WalksHierarchy(user: User, row: Row, ws: Option<Workspace>) {
    user.role == Leader && user.id != row.ownerId && !(ws.Some? && IsWorkspaceAdmin(user, ws.value))
  }

  /** `canViewRow(user, row, allUsers, workspace?)`, first match wins. Only
      the subordinate walk needs an acyclic manager graph. */
  function CanViewRow(user: User, row: Row, users: seq<User>, ws: Option<Workspace>, ghost rank: map<string, nat>): bool
    requires WalksHierarchy(user, row, ws) ==> Ranked(users, rank)
  {
    if user.role == Admin then true
    else if ws.Some? && IsWorkspaceAdmin(user, ws.value) then true
    else if user.id == row.ownerId then true
    else if user.role == Leader && row.ownerId in Subordinates(users, user.id, rank) then true
    else false
  }

  /** Visibility in terms of the manager graph itself. */
  lemma CanViewRowExact(user: User, row: Row, users: seq<User>, ws: Option<Workspace>, rank: map<string, nat>)
    requires WalksHierarchy(user, row, ws) ==> Ranked(users, rank)
    ensures CanViewRow(user, row, users, ws, rank) <==>
      || user.role == Admin
      || (ws.Some? && user.id in ws.value.adminIds.GetOr([]))
      || user.id == row.ownerId
      || (user.role == Leader && Reaches(users, row.ownerId, user.id))
  {
    if WalksHierarchy(user, row, ws) {
      SubordinatesExact(users, user.id, rank);
    }
  }

  lemma AdminSeesEveryRow(user: User, row: Row, users: seq<User>, ws: Option<Workspace>, rank: map<string, nat>)
    requires user.role == Admin
    ensures CanViewRow(user, row, users, ws, rank)
  {
  }

  lemma OwnerSeesOwnRow(user: User, row: Row, users: seq<User>, ws: Option<Workspace>, rank: map<string, nat>)
    requires user.id == row.ownerId
    ensures CanViewRow(user, row, users, ws, rank)
  {
  }

  /** Passing a workspace never hides a row. */
  lemma WorkspaceNeverHides(user: User, row: Row, users: seq<User>, ws: Workspace, rank: map<string, nat>)
    requires WalksHierarchy(user, row, None) ==> Ranked(users, rank)
    ensures CanViewRow(user, row, users, None, rank) ==> CanViewRow(user, row, users, Some(ws), rank)
  {
  }

  /** A MEMBER sees only rows it owns, unless it administers the workspace;
      any reports it has give it nothing. */
  lemma MemberSeesOnlyOwnRows(user: User, row: Row, users: seq<User>, ws: Option<Workspace>, rank: map<string, nat>)
    requires user.role == Member
    requires ws.None? || !IsWorkspaceAdmin(user, ws.value)
    ensures CanViewRow(user, row, users, ws, rank) <==> user.id == row.ownerId
  {
  }

  /** A LEADER over M1, who manages M2, sees the rows M2 owns. */
  lemma LeaderSeesTransitiveReport(leader: User, m1: string, m2: string, row: Row, users: seq<User>, rank: map<string, nat>)
    requires Ranked(users, rank)
    requires leader.role == Leader
    requires ReportsTo(users, m1, leader.id) && ReportsTo(users, m2, m1)
    requires row.ownerId == m2
    ensures CanViewRow(leader, row, users, None, rank)
  {
    assert IsChain(users, [m2, m1, leader.id]);
    CanViewRowExact(leader, row, users, None, rank);
  }

  // ---------------------------------------------------------------------
  // Column access
  // ---------------------------------------------------------------------

  /** `workspace.columns.find(c => c.field === field)`. */
  function FindColumn(cols: seq<Column>, field: string): Option<Column> {
    if cols == [] then None
    else if cols[0].field == field then Some(cols[0])
    else FindColumn(cols[1..], field)
  }

  /** `find` gives nothing exactly when no column has the field, and
      otherwise the first column that has it. */
  lemma {:induction false} FindColumnFirst(cols: seq<Column>, field: string)
    ensures FindColumn(cols, field).None? <==> forall c :: c in cols ==> c.field != field
    ensures FindColumn(cols, field).Some? ==>
      exists i :: 0 <= i < |cols| && cols[i] == FindColumn(cols, field).value && cols[i].field == field
                  && forall j :: 0 <= j < i ==> cols[j].field != field
  {
    if cols != [] && cols[0].field != field {
      var r := FindColumn(cols[1..], field);
      FindColumnFirst(cols[1..], field);
      assert forall c :: c in cols ==> c == cols[0] || c in cols[1..];
      if r.Some? {
        var i :| 0 <= i < |cols[1..]| && cols[1..][i] == r.value && cols[1..][i].field == field
          && forall j :: 0 <= j < i ==> cols[1..][j].field != field;
        assert cols[i + 1] == r.value;
        forall j | 0 <= j < i + 1 ensures cols[j].field != field {
          if j > 0 { assert cols[j] == cols[1..][j - 1]; }
        }
      }
    } else if cols != [] {
      assert cols[0] in cols;
    }
  }

  /** `column.groupPermissions?.[groupId] || NONE`. */
  function ConfiguredPermission(col: Column, groupId: string): AccessLevel {
    match col.groupPermissions
    case None => NoAccess
    case Some(m) => if groupId in m then m[groupId] else NoAccess
  }

  /** Meta fields that regular users may read but not write. */
  const MetaFields: seq<string> := ["id", "updatedAt", "ownerId", "version"]

  /** The lifecycle lock: WRITE stays WRITE for the owner of a DRAFT row and
      on rows in any other open state; it becomes READ on DRAFT rows of other
      owners and on APPROVED or REJECTED rows. */
  function LifecycleLock(p: AccessLevel, isOwner: bool, status: Status): AccessLevel {
    if p == Write then
      if isOwner && IsDraft(status) then Write
      else if !isOwner && IsDraft(status) then Read
      else if IsClosed(status) then Read
      else p
    else p
  }

  /** `getColumnAccess(user, row, field, workspace)`. */
  function GetColumnAccess(user: User, row: Row, field: string, ws: Workspace): AccessLevel {
    if IsWorkspaceAdmin(user, ws) then Write
    else if field == "status" then Write
    else if field in MetaFields then Read
    else match FindColumn(ws.columns, field)
      case None => NoAccess
      case Some(col) => LifecycleLock(ConfiguredPermission(col, user.groupId), user.id == row.ownerId, row.status)
  }

  function Strength(a: AccessLevel): nat {
    match a
    case NoAccess => 0
    case Read => 1
    case Write => 2
  }

  /** The lock only ever moves WRITE down to READ. */
  lemma LockOnlyDowngrades(p: AccessLevel, isOwner: bool, status: Status)
    ensures Strength(LifecycleLock(p, isOwner, status)) <= Strength(p)
    ensures p != Write ==> LifecycleLock(p, isOwner, status) == p
    ensures LifecycleLock(p, isOwner, status) in {p, Read}
  {
  }

  lemma AdminWritesEveryField(user: User, row: Row, field: string, ws: Workspace)
    requires IsWorkspaceAdmin(user, ws)
    ensures GetColumnAccess(user, row, field, ws) == Write
  {
  }

  /** Fixed rules for users who do not administer the workspace. */
  lemma NonAdminFixedFields(user: User, row: Row, field: string, ws: Workspace)
    requires !IsWorkspaceAdmin(user, ws)
    ensures field == "status" ==> GetColumnAccess(user, row, field, ws) == Write
    ensures field in {"id", "updatedAt", "ownerId", "version"} ==> GetColumnAccess(user, row, field, ws) == Read
    ensures field != "status" && field !in MetaFields && (forall c :: c in ws.columns ==> c.field != field)
      ==> GetColumnAccess(user, row, field, ws) == NoAccess
  {
    FindColumnFirst(ws.columns, field);
  }

  /** For a schema field and a non-admin, the result is the configured
      permission put through the lock; a missing group entry gives NONE. */
  lemma NonAdminSchemaField(user: User, row: Row, col: Column, ws: Workspace)
    requires !IsWorkspaceAdmin(user, ws)
    requires col.field != "status" && col.field !in MetaFields
    requires FindColumn(ws.columns, col.field) == Some(col)
    ensures GetColumnAccess(user, row, col.field, ws)
      == LifecycleLock(ConfiguredPermission(col, user.groupId), user.id == row.ownerId, row.status)
    ensures (col.groupPermissions.None? || user.groupId !in col.groupPermissions.value)
      ==> GetColumnAccess(user, row, col.field, ws) == NoAccess
    ensures ConfiguredPermission(col, user.groupId) == Write ==>
      GetColumnAccess(user, row, col.field, ws) == (
        if IsClosed(row.status) || (IsDraft(row.status) && user.id != row.ownerId) then Read else Write)
  {
  }

  /** The security invariant: apart from `status`, a user who does not
      administer the workspace writes only a schema field whose group
      permission is WRITE, on a row that is not APPROVED or REJECTED and,
      while DRAFT, only if it owns the row; and whenever those hold it writes. */
  lemma WriteAccessExact(user: User, row: Row, field: string, ws: Workspace)
    requires !IsWorkspaceAdmin(user, ws)
    requires field != "status"
    ensures GetColumnAccess(user, row, field, ws) == Write <==>
      && field !in MetaFields
      && FindColumn(ws.columns, field).Some?
      && ConfiguredPermission(FindColumn(ws.columns, field).value, user.groupId) == Write
      && !IsClosed(row.status)
      && (IsDraft(row.status) ==> user.id == row.ownerId)
  {
  }
}
