/** The configuration console (components/PolicyView.tsx): the click cycle of
    the permission matrix, the per-workspace switch of role groups, and the
    personnel list pasted from a spreadsheet. The view hands new values to the
    callbacks of App.tsx; here each handler returns the value it hands on.
    `active` is the workspace the console shows: `App.ActiveWorkspace`
    applied to the console's own selected id `selectedWsId`. */
module Policy {
  import opened Types
  import opened Text
  import opened AccessControl
  import opened App

  // ---------------------------------------------------------------------
  // The permission cycle (`cyclePermission`)
  // ---------------------------------------------------------------------

  /** One click on a matrix cell: NONE, then READ, then WRITE, then NONE again. */
  function NextLevel(current: AccessLevel): (next: AccessLevel)
    ensures next != current
    ensures Strength(next) == (Strength(current) + 1) % 3
  {
    if current == NoAccess then Read
    else if current == Read then Write
    else NoAccess
  }

  /** Three clicks bring a cell back to where it started, passing through
      every level once. */
  lemma CycleOfThree(a: AccessLevel)
    ensures NextLevel(NextLevel(NextLevel(a))) == a
    ensures {a, NextLevel(a), NextLevel(NextLevel(a))} == {NoAccess, Read, Write}
  {
  }

  /** The level a cell shows: the entry of group `gid` in the first column
      named `field`; no such column, no map or no entry all count as NONE. */
  function CurrentLevel(ws: Workspace, field: string, gid: string): AccessLevel {
    match FindColumn(ws.columns, field)
    case None => NoAccess
    case Some(col) => ConfiguredPermission(col, gid)
  }

  /** `cyclePermission(field, gid)`: the workspace list after
      `onUpdatePermission(active.id, field, gid, next)`. */
  function CyclePermission(wss: seq<Workspace>, active: Workspace, field: string, gid: string): seq<Workspace> {
    UpdatePermission(wss, active.id, field, gid, NextLevel(CurrentLevel(active, field, gid)))
  }

  /** A click on an existing column advances that group's level by one step
      and leaves the levels of every other group on the column as they were. */
  lemma CycleAdvances(wss: seq<Workspace>, i: nat, field: string, gid: string)
    requires i < |wss|
    requires FindColumn(wss[i].columns, field).Some?
    ensures CyclePermission(wss, wss[i], field, gid)[i].id == wss[i].id
    ensures FindColumn(CyclePermission(wss, wss[i], field, gid)[i].columns, field).Some?
    ensures CurrentLevel(CyclePermission(wss, wss[i], field, gid)[i], field, gid)
      == NextLevel(CurrentLevel(wss[i], field, gid))
    ensures forall g :: g != gid ==>
      CurrentLevel(CyclePermission(wss, wss[i], field, gid)[i], field, g) == CurrentLevel(wss[i], field, g)
  {
    var level := NextLevel(CurrentLevel(wss[i], field, gid));
    FindUpdatedColumn(wss[i].columns, field, field, gid, level);
  }

  /** A group without an entry in the column counts as NONE, so its first
      click grants READ. */
  lemma CycleFromMissingEntry(wss: seq<Workspace>, i: nat, field: string, gid: string)
    requires i < |wss|
    requires FindColumn(wss[i].columns, field).Some?
    requires var col := FindColumn(wss[i].columns, field).value;
      col.groupPermissions.None? || gid !in col.groupPermissions.value
    ensures CurrentLevel(CyclePermission(wss, wss[i], field, gid)[i], field, gid) == Read
  {
    CycleAdvances(wss, i, field, gid);
  }

  /** Three clicks on the same cell restore the level of every group. */
  lemma CycleThreeTimes(wss: seq<Workspace>, i: nat, field: string, gid: string)
    requires i < |wss|
    requires FindColumn(wss[i].columns, field).Some?
    ensures var w1 := CyclePermission(wss, wss[i], field, gid);
      var w2 := CyclePermission(w1, w1[i], field, gid);
      var w3 := CyclePermission(w2, w2[i], field, gid);
      forall g :: CurrentLevel(w3[i], field, g) == CurrentLevel(wss[i], field, g)
  {
    var w1 := CyclePermission(wss, wss[i], field, gid);
    CycleAdvances(wss, i, field, gid);
    var w2 := CyclePermission(w1, w1[i], field, gid);
    CycleAdvances(w1, i, field, gid);
    var w3 := CyclePermission(w2, w2[i], field, gid);
    CycleAdvances(w2, i, field, gid);
    CycleOfThree(CurrentLevel(wss[i], field, gid));
  }

  // ---------------------------------------------------------------------
  // Role groups enabled in a workspace (`activeGroups`, `handleToggleGroup`)
  // ---------------------------------------------------------------------

  /** `groups.map(g => g.id)`. */
  function GroupIds(groups: seq<RoleGroup>): (ids: seq<string>)
    ensures |ids| == |groups|
    ensures forall k :: 0 <= k < |groups| ==> ids[k] == groups[k].id
  {
    seq(|groups|, k requires 0 <= k < |groups| => groups[k].id)
  }

  lemma GroupIdsMember(groups: seq<RoleGroup>, id: string)
    ensures id in GroupIds(groups) <==> exists g :: g in groups && g.id == id
  {
    var ids := GroupIds(groups);
    if id in ids {
      var k :| 0 <= k < |ids| && ids[k] == id;
      assert groups[k] in groups;
    }
    if exists g :: g in groups && g.id == id {
      var g :| g in groups && g.id == id;
      var k :| 0 <= k < |groups| && groups[k] == g;
      assert ids[k] == id;
    }
  }

  /** `groups.filter(g => ids.includes(g.id))`. */
  function Enabled(groups: seq<RoleGroup>, ids: seq<string>): (r: seq<RoleGroup>)
    ensures |r| <= |groups|
    ensures forall g :: g in r <==> g in groups && g.id in ids
  {
    if groups == [] then []
    else (if groups[0].id in ids then [groups[0]] else []) + Enabled(groups[1..], ids)
  }

  /** The filter keeps the order of `groups`: it distributes over
      concatenation. */
  lemma {:induction false} EnabledAppend(a: seq<RoleGroup>, b: seq<RoleGroup>, ids: seq<string>)
    ensures Enabled(a + b, ids) == Enabled(a, ids) + Enabled(b, ids)
  {
    if a == [] {
      assert a + b == b;
    } else {
      assert (a + b)[1..] == a[1..] + b;
      EnabledAppend(a[1..], b, ids);
    }
  }

  /** `activeGroups`: every group when the workspace names none, otherwise
      the groups it lists, in the order of `groups`. */
  function ActiveGroups(groups: seq<RoleGroup>, active: Workspace): (r: seq<RoleGroup>)
    ensures active.activeGroupIds.None? ==> r == groups
    ensures active.activeGroupIds.Some? ==>
      forall g :: g in r <==> g in groups && g.id in active.activeGroupIds.value
  {
    match active.activeGroupIds
    case None => groups
    case Some(ids) => Enabled(groups, ids)
  }

  /** An empty list enables no group at all (an empty array is not "absent"). */
  lemma EmptyListEnablesNone(groups: seq<RoleGroup>, active: Workspace)
    requires active.activeGroupIds == Some([])
    ensures ActiveGroups(groups, active) == []
  {
    EnabledNone(groups);
  }

  lemma {:induction false} EnabledNone(groups: seq<RoleGroup>)
    ensures Enabled(groups, []) == []
  {
    if groups != [] {
      EnabledNone(groups[1..]);
    }
  }

  /** Whether the console shows group `id` as enabled in `ws`. */
  predicate IsEnabled(groups: seq<RoleGroup>, ws: Workspace, id: string) {
    match ws.activeGroupIds
    case None => id in GroupIds(groups)
    case Some(ids) => id in ids
  }

  /** `handleToggleGroup(gid)`: the new `activeGroupIds`. An absent list
      stands for the ids of all groups. */
  function ToggleGroup(groups: seq<RoleGroup>, active: Workspace, gid: string): seq<string> {
    Toggle(active.activeGroupIds.GetOr(GroupIds(groups)), gid)
  }

  /** The toggle flips `gid` and leaves every other id as it was. */
  lemma ToggleGroupFlipsOne(groups: seq<RoleGroup>, active: Workspace, gid: string, id: string)
    ensures var ws' := active.(activeGroupIds := Some(ToggleGroup(groups, active, gid)));
      IsEnabled(groups, ws', id) <==> (if id == gid then !IsEnabled(groups, active, id) else IsEnabled(groups, active, id))
  {
  }

  /** Seen through `activeGroups`: exactly the group with id `gid` changes
      sides. */
  lemma ToggleGroupSwitchesActive(groups: seq<RoleGroup>, active: Workspace, gid: string, g: RoleGroup)
    requires g in groups
    ensures var ws' := active.(activeGroupIds := Some(ToggleGroup(groups, active, gid)));
      g in ActiveGroups(groups, ws') <==> ((g in ActiveGroups(groups, active)) != (g.id == gid))
  {
    GroupIdsMember(groups, g.id);
  }

  /** Toggling the same group twice restores the set of enabled ids. */
  lemma ToggleGroupTwice(groups: seq<RoleGroup>, active: Workspace, gid: string, id: string)
    ensures var ws' := active.(activeGroupIds := Some(ToggleGroup(groups, active, gid)));
      var ws'' := ws'.(activeGroupIds := Some(ToggleGroup(groups, ws', gid)));
      IsEnabled(groups, ws'', id) <==> IsEnabled(groups, active, id)
  {
    ToggleTwice(active.activeGroupIds.GetOr(GroupIds(groups)), gid);
  }

  /** `onUpdateWorkspace(wsId, {activeGroupIds: ids})`. */
  function UpdateActiveGroups(wss: seq<Workspace>, wsId: string, ids: seq<string>): (r: seq<Workspace>)
    ensures |r| == |wss|
    ensures forall i :: 0 <= i < |wss| ==>
      r[i] == if wss[i].id == wsId then wss[i].(activeGroupIds := Some(ids)) else wss[i]
  {
    seq(|wss|, i requires 0 <= i < |wss| => if wss[i].id == wsId then wss[i].(activeGroupIds := Some(ids)) else wss[i])
  }

  // ---------------------------------------------------------------------
  // Personnel paste (`handleUserPaste`)
  // ---------------------------------------------------------------------

  /** `rows.filter(r => r.trim())`. */
  function NonBlank(lines: seq<string>): (r: seq<string>)
    ensures |r| <= |lines|
    decreases |lines|
  {
    if lines == [] then []
    else NonBlank(lines[..|lines| - 1]) + (if IsBlank(lines[|lines| - 1]) then [] else [lines[|lines| - 1]])
  }

  /** The filter keeps exactly the lines with a non-whitespace character. */
  lemma {:induction false} NonBlankMember(lines: seq<string>)
    ensures forall l :: l in NonBlank(lines) <==> l in lines && !IsBlank(l)
    decreases |lines|
  {
    if lines != [] {
      var init := lines[..|lines| - 1];
      NonBlankMember(init);
      assert lines == init + [lines[|lines| - 1]];
    }
  }

  /** The filter keeps the order of the lines: it distributes over
      concatenation and keeps or drops a single line. */
  lemma {:induction false} NonBlankAppend(a: seq<string>, b: seq<string>)
    ensures NonBlank(a + b) == NonBlank(a) + NonBlank(b)
    decreases |b|
  {
    if b == [] {
      assert a + b == a;
    } else {
      var b', l := b[..|b| - 1], b[|b| - 1];
      assert b == b' + [l];
      assert a + b == (a + b') + [l];
      NonBlankSnoc(a + b', l);
      NonBlankSnoc(b', l);
      NonBlankAppend(a, b');
    }
  }

  lemma NonBlankSnoc(s: seq<string>, l: string)
    ensures NonBlank(s + [l]) == NonBlank(s) + (if IsBlank(l) then [] else [l])
  {
    assert (s + [l])[..|s|] == s;
  }

  /** Lines that are all blank filter to nothing. */
  lemma {:induction false} NonBlankAllBlank(lines: seq<string>)
    requires forall i :: 0 <= i < |lines| ==> IsBlank(lines[i])
    ensures NonBlank(lines) == []
    decreases |lines|
  {
    if lines != [] {
      var init := lines[..|lines| - 1];
      assert forall i :: 0 <= i < |init| ==> init[i] == lines[i];
      NonBlankAllBlank(init);
    }
  }

  lemma NonBlankSingle(l: string)
    ensures NonBlank([l]) == if IsBlank(l) then [] else [l]
  {
    assert [l][..0] == [];
  }

  /** `cols[k] || fallback`: a missing or empty cell takes the fallback. */
  function CellOr(cols: seq<string>, k: nat, fallback: string): string {
    if k < |cols| && cols[k] != "" then cols[k] else fallback
  }

  /** `(cols[2] as UserRole) || UserRole.MEMBER`. A string that names no role
      is compared against ADMIN and LEADER only, so it acts as MEMBER. */
  function PastedRole(cols: seq<string>): Role {
    var s := CellOr(cols, 2, "MEMBER");
    if s == "ADMIN" then Admin else if s == "LEADER" then Leader else Member
  }

  /** `U-${Date.now()}-${idx}`. */
  function FallbackUserId(now: nat, idx: nat): string {
    "U-" + NatToString(now) + "-" + NatToString(idx)
  }

  /** A line whose group cell is missing reads `groups[0].id`. */
  predicate NeedsDefaultGroup(cols: seq<string>) {
    CellOr(cols, 3, "") == ""
  }

  /** The user built from the cells of line `idx`; `None` when the line needs
      the first group's id and there is no group (the lookup throws). */
  function PastedUser(cols: seq<string>, idx: nat, now: nat, groups: seq<RoleGroup>): (u: Option<User>)
    ensures u.None? <==> groups == [] && NeedsDefaultGroup(cols)
  {
    if groups == [] && NeedsDefaultGroup(cols) then None
    else Some(User(
      CellOr(cols, 0, FallbackUserId(now, idx)),
      CellOr(cols, 1, "New User"),
      PastedRole(cols),
      CellOr(cols, 3, if groups == [] then "" else groups[0].id),
      if CellOr(cols, 4, "") == "" then None else Some(cols[4])))
  }

  /** `clipboard.map((cols, idx) => ...)`: one user per line, or `None` when
      building one of them throws. */
  function PastedUsers(rows: seq<seq<string>>, now: nat, groups: seq<RoleGroup>): (r: Option<seq<User>>)
    ensures r.None? <==> exists k :: 0 <= k < |rows| && PastedUser(rows[k], k, now, groups).None?
    ensures r.Some? ==> |r.value| == |rows|
    ensures r.Some? ==> forall k :: 0 <= k < |rows| ==> PastedUser(rows[k], k, now, groups) == Some(r.value[k])
    decreases |rows|
  {
    if rows == [] then Some([])
    else
      var last := |rows| - 1;
      var prev := PastedUsers(rows[..last], now, groups);
      var u := PastedUser(rows[last], last, now, groups);
      assert forall k :: 0 <= k < last ==> rows[..last][k] == rows[k];
      if prev.None? || u.None? then None else Some(prev.value + [u.value])
  }

  /** The cells of the non-blank lines of the pasted text. */
  function PastedRows(text: string): seq<seq<string>> {
    var lines := NonBlank(SplitLines(text));
    seq(|lines|, k requires 0 <= k < |lines| => Split(lines[k], '\t'))
  }

  /** `handleUserPaste`: the list handed to `onBatchUpdateUsers`, which
      replaces the personnel list; `None` when nothing is handed on (empty
      text, the confirmation declined, or a throwing lookup). */
  function PasteUsers(text: string, confirmed: bool, now: nat, groups: seq<RoleGroup>): Option<seq<User>> {
    if text == "" || !confirmed then None
    else PastedUsers(PastedRows(text), now, groups)
  }

  /** One user per non-blank line, the `k`-th one built from the tab-separated
      cells of the `k`-th non-blank line. */
  lemma PasteOneUserPerLine(text: string, now: nat, groups: seq<RoleGroup>)
    requires text != "" && groups != []
    ensures var r := PasteUsers(text, true, now, groups);
      var lines := NonBlank(SplitLines(text));
      r.Some? && |r.value| == |lines|
      && forall k :: 0 <= k < |lines| ==> PastedUser(Split(lines[k], '\t'), k, now, groups) == Some(r.value[k])
  {
  }

  /** Without groups, the paste goes through only if every line names its
      group. */
  lemma PasteWithoutGroups(text: string, now: nat)
    requires text != ""
    ensures PasteUsers(text, true, now, []).Some? <==>
      forall cols :: cols in PastedRows(text) ==> !NeedsDefaultGroup(cols)
  {
    var rows := PastedRows(text);
    if PasteUsers(text, true, now, []).Some? {
      forall cols | cols in rows ensures !NeedsDefaultGroup(cols) {
        var k :| 0 <= k < |rows| && rows[k] == cols;
        assert PastedUser(rows[k], k, now, []).Some?;
      }
    }
  }

  /** A line with a single cell takes every default: name 'New User', role
      MEMBER, the first group and no manager. */
  lemma PasteDefaults(id: string, idx: nat, now: nat, groups: seq<RoleGroup>)
    requires groups != []
    ensures PastedUser([id], idx, now, groups)
      == Some(User(if id == "" then FallbackUserId(now, idx) else id, "New User", Member, groups[0].id, None))
  {
  }

  /** A line that fills all five cells keeps them: id, name, the role it
      names, group and manager. */
  lemma PasteKeepsFullLine(cols: seq<string>, idx: nat, now: nat, groups: seq<RoleGroup>)
    requires |cols| >= 5
    requires forall k :: 0 <= k < 5 ==> cols[k] != ""
    ensures var u := PastedUser(cols, idx, now, groups);
      u.Some? && u.value.id == cols[0] && u.value.name == cols[1] && u.value.groupId == cols[3]
      && u.value.managerId == Some(cols[4])
      && (cols[2] == "ADMIN" ==> u.value.role == Admin)
      && (cols[2] == "LEADER" ==> u.value.role == Leader)
  {
    assert cols[3] != "";
  }

  /** Text made of blank lines only still passes the `!text` guard, and the
      confirmed paste hands on the empty list: every line is filtered out,
      so the paste replaces the personnel list by nothing. */
  lemma BlankPasteEmptiesList(text: string, now: nat, groups: seq<RoleGroup>)
    requires text != ""
    requires forall i :: 0 <= i < |SplitLines(text)| ==> IsBlank(SplitLines(text)[i])
    ensures PasteUsers(text, true, now, groups) == Some([])
  {
    NonBlankAllBlank(SplitLines(text));
    assert PastedRows(text) == [];
  }
}
