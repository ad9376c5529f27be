# Workflow grid: access control, batch edits and the design screens

This project is a Dafny model of the core of a browser-based workflow tool.
Users belong to role groups and sit in a manager hierarchy. They edit rows of
business workspaces in a spreadsheet-like grid. Every cell write passes a
field-level access check. The check looks at the user's global role, the
workspace's administrator list, the permission the column grants the
user's group, and the row's lifecycle status (DRAFT, PENDING, APPROVED,
REJECTED). Accepted writes bump the row's version and are appended to an
audit trail.

The modules follow the program's files:

- `Types`: the records and enums of `types.ts` as datatypes. It also defines
  a row's string view (`Get`/`Set`/`Stringify`), which is how JavaScript
  objects are compared and written.
- `Text`: the string helpers the source takes from JavaScript (`split`,
  `trim`, the `filter`/`includes` toggle on id lists).
- `AccessControl`: `components/AccessControl.tsx`. This covers the
  transitive subordinates of a leader (a loop, proved against a recursive
  definition and against reachability in the manager graph), workspace
  administrators, row visibility and column access.
- `Batch`: the pure meaning of `performBatchUpdate`: per-row application,
  counters, audit entries and version bumps.
- `App`: the state-changing parts of `App.tsx`. The class `Store` holds the
  row list and the audit trail. Its `PerformBatchUpdate` method is a
  loop proved against `Batch`; `Submit` sets the rows to `SubmitDrafts` of
  the old rows. The
  module also has the sidebar's workspace filter, the active workspace, the
  grid's row filter and the permission update.
- `Clipboard`: the grid's keyboard handlers in `App.tsx`. This covers the
  selection rectangle, the Delete/Backspace clearing loop and the paste
  loops (single-value fill and matrix paste), each proved against a
  reference list of target cells.
- `Policy`: `components/PolicyView.tsx`. This covers the three-step
  permission cycle, the enabled role groups and their toggle, and the
  personnel paste.
- `Designer`: `components/TemplateDesigner.tsx`. This covers the editor's
  initial state, the group and administrator toggles, `slugify`, column-type
  inference on upload, column editing, and the save validation with its
  imported-row construction.

`getAllSubordinates` follows `managerId` downward from the leader and does
not terminate when that walk comes back to a user it has already passed. The
model asks for more: the whole user table must be acyclic, stated as a ghost
ranking `Ranked(users, rank)` under which every manager ranks above its
reports. A table whose only cycle lies away from the leader (two users
managing each other, neither below the leader) is excluded by the model,
although the source terminates on it.
`canViewRow` needs it only on the one path that walks the hierarchy: a
LEADER looking at another user's row outside a workspace it administers.
The clock, random ids, the `confirm()` answer, the uploaded sheet and the
search box are parameters.

## Model

| member | source | states |
|---|---|---|
| Types.ParseStatus | types.ts:8-13 | The status read from a row's string is the status whose name is that string, so decoding then encoding returns the same string. Unknown names are kept as `Other`. |
| Types.SetReadsBack | App.tsx:170 | After `row[field] = v` the field reads back as `v` (as a string for the fixed keys; `version` only takes a number). |
| Types.SetKeepsOthers | App.tsx:170 | Writing one field leaves every other field of the row unchanged. |
| Text.JoinSplit | App.tsx:250 | Splitting on a separator and joining again returns the original text. |
| Text.Split | components/PolicyView.tsx:90 | `split` gives at least one piece, and no piece contains the separator. |
| Text.SplitLines | App.tsx:250 | Splitting on `\r?\n` gives one line per `\n`-separated piece, none containing a newline. Each line but the last is its piece less one trailing `\r` when the piece has one, and the last piece is kept as it is. |
| Text.TrimIsSlice | App.tsx:265 | `trim()` returns a contiguous slice of the input with no surrounding whitespace. |
| Text.ToggleTwice | components/TemplateDesigner.tsx:41-45 | Toggling the same id in an id list twice restores the list's membership. |
| AccessControl.DirectReports | components/AccessControl.tsx:8 | An id is a direct report exactly when that user's `managerId` is the leader. |
| AccessControl.SubordinatesSound | components/AccessControl.tsx:7-14 | Every collected id reaches the leader along a chain of managers. |
| AccessControl.SubordinatesComplete | components/AccessControl.tsx:7-14 | Every id that reaches the leader along a manager chain is collected. |
| AccessControl.SubordinatesExact | components/AccessControl.tsx:7-14 | On an acyclic hierarchy, the subordinates are exactly the users that reach the leader. |
| AccessControl.GetAllSubordinates | components/AccessControl.tsx:7-14 | The loop over direct reports, with its recursive calls, returns exactly the recursive definition of the subordinates. |
| AccessControl.WorkspaceAdminWithoutList | components/AccessControl.tsx:19-22 | Without an `adminIds` list, only a global ADMIN administers the workspace. |
| AccessControl.CanViewRowExact | components/AccessControl.tsx:27-45 | A row is visible iff the user is a global ADMIN, or is listed as workspace admin, or owns the row, or is a LEADER whom the owner reaches through the managers. Only that last walk needs an acyclic manager graph. |
| AccessControl.AdminSeesEveryRow | components/AccessControl.tsx:29 | A global ADMIN sees every row, whatever the manager graph. |
| AccessControl.OwnerSeesOwnRow | components/AccessControl.tsx:36 | The owner always sees its own row, whatever the manager graph. |
| AccessControl.WorkspaceNeverHides | components/AccessControl.tsx:33 | Passing a workspace never hides a row that would be visible without one. |
| AccessControl.MemberSeesOnlyOwnRows | components/AccessControl.tsx:27-45 | A MEMBER who does not administer the given workspace sees a row iff it owns it, whatever the manager graph. |
| AccessControl.LeaderSeesTransitiveReport | components/AccessControl.tsx:39-42 | A LEADER sees the rows of a report's report. |
| AccessControl.FindColumnFirst | components/AccessControl.tsx:64-65 | `columns.find` returns the first column with that field, and none if no column has it. |
| AccessControl.LockOnlyDowngrades | components/AccessControl.tsx:73-83 | The lifecycle lock only downgrades WRITE to READ and never raises a level. |
| AccessControl.AdminWritesEveryField | components/AccessControl.tsx:57 | A workspace administrator may write every field. |
| AccessControl.NonAdminFixedFields | components/AccessControl.tsx:59-65 | For a non-admin: `status` is writable, the meta fields are read-only, and a field outside the schema gives NONE. |
| AccessControl.NonAdminSchemaField | components/AccessControl.tsx:64-83 | For a schema field and a non-admin: the result is the group's configured level through the lock, with NONE when nothing is configured. |
| AccessControl.WriteAccessExact | components/AccessControl.tsx:50-86 | A non-admin may write a non-status field iff the field is a schema column whose configured level is WRITE, the row is not APPROVED/REJECTED, and a DRAFT row is the user's own. |
| Batch.UpdatesFor | App.tsx:150 | A row's updates are exactly the batch updates that name its id. |
| Batch.UpdatesForAppend | App.tsx:150 | The filter keeps the batch's order: it distributes over concatenation and keeps a single update iff it names the row. |
| Batch.RowCounts | App.tsx:150-184 | Per row: `updated` equals the number of new audit entries, the row counts as changed iff something was updated, `skipped` equals the updates refused on the pre-batch row, and an unchanged row is returned as it was. |
| Batch.RowLogsFaithful | App.tsx:159-172 | Each new audit entry names the row, the active workspace, the operator and the batch time, records a field the operator may write with different old and new strings, and carries the next consecutive log id. |
| Batch.SourcesExact | App.tsx:156-159 | The accepted updates of a row, in strictly increasing order: an index is listed iff that update is permitted and its value differs, as a string, from the field's value after the updates before it. |
| Batch.RunIsApply | App.tsx:155-177 | Applying the first `n` updates one position at a time gives the same row outcome as the `forEach` over the prefix of length `n`. |
| Batch.RowLogsTraced | App.tsx:155-172 | The row's audit entries are in one-to-one, order-preserving correspondence with its accepted updates. Entry `k` comes from the `k`-th accepted update: its field, its old value (the field's string after the earlier updates) and its new value (the update's value with `null` as `''`). |
| Batch.RowFinalValues | App.tsx:155-177 | After the updates, every field except `version` reads, as a string, as the last permitted value written to it, or its old value when none was. |
| Batch.RowVersionUntouched | App.tsx:155-177 | When no update names `version`, the updates leave it as it was. |
| Batch.RowRevision | App.tsx:178-183 | A changed row gets the batch time and one more than the version its updates left, however many fields changed; when no update names `version`, that is the original `version + 1`. A changed row has logged at least once. An unchanged row is returned untouched and logs nothing. |
| Batch.IdempotentWrites | App.tsx:157-159 | Permitted writes of values equal (as strings) to the current ones change nothing, log nothing and count nothing. |
| Batch.StatusChangeDoesNotUnlock | App.tsx:156 | Access is decided on the pre-batch row. A non-owner who moves a DRAFT row to PENDING is still refused a later write in the same batch, though the new row would allow it. |
| Batch.BatchRowAt | App.tsx:148-185 | Row `i` of the result is row `i` processed on its own, with log ids continuing after the entries of the rows before it. |
| Batch.UntouchedRowsUnchanged | App.tsx:149-151 | The batch keeps the number and order of rows, and a row that no update names comes back unchanged. |
| Batch.BatchCounts | App.tsx:144-187 | `updatedCount` equals the number of audit entries appended. |
| Batch.BatchSkipped | App.tsx:174-176 | `skippedCount` equals the number of updates, over all rows, that the access check refuses. |
| App.SubmitDrafts | App.tsx:481 | Every own DRAFT row, in every workspace, becomes PENDING with the new time and keeps its version and cells. Every other row is unchanged, and no own DRAFT row remains. |
| App.SubmitWithoutDrafts | App.tsx:479-480 | With no own DRAFT row, submitting changes nothing. |
| App.SubmitIdempotent | App.tsx:478-484 | Submitting a second time changes nothing. |
| App.ApplyUpdate | App.tsx:156-176 | One iteration of the update loop computes the outcome of the specification's single step, including the log buffer and the counters. |
| App.ApplyRowUpdates | App.tsx:155-177 | The `forEach` over one row's updates computes the specification's outcome for that row. |
| App.MapRow | App.tsx:150-184 | The `map` callback returns the row the specification finishes, with its log entries and counter increments. |
| App.Store.constructor | App.tsx:38-39 | The store starts with the given rows and audit trail. |
| App.Store.PerformBatchUpdate | App.tsx:143-190 | The rows become the batch result, its audit entries are appended after the existing ones, and the two counters are returned. |
| App.Store.Submit | App.tsx:478-484 | The rows become `SubmitDrafts` of the old rows, and the audit trail is unchanged. |
| App.VisibleWorkspaces | App.tsx:46-55 | The sidebar lists exactly the workspaces that are public, have an empty group list, or list the user's group, and all of them for a global ADMIN. |
| App.VisibleWorkspacesAppend | App.tsx:46-55 | The sidebar keeps the workspaces' order: the filter distributes over concatenation. |
| App.VisibleWorkspacesSingle | App.tsx:48-54 | A single workspace is listed iff it is visible to the user. |
| App.AdminSeesEveryWorkspace | App.tsx:49 | A global ADMIN's sidebar is the whole list. |
| App.SidebarHidesOtherGroups | App.tsx:51-53 | For a non-ADMIN, a workspace with a nonempty group list is shown iff it lists the user's group. |
| App.FindWorkspace | App.tsx:67 | `find` returns none exactly when no workspace has the id, and otherwise the first workspace in the list that has it. |
| App.ActiveWorkspace | App.tsx:66-68 | The first workspace with the active id, else the first workspace, and none only when there is no workspace. |
| App.GridRowsMember | App.tsx:96-103 | The grid keeps exactly the rows of the active workspace that `canViewRow` allows and the search matches. |
| App.GridRowsAppend | App.tsx:96-103 | The grid keeps the row store's order: the filter distributes over concatenation. |
| App.GridRowsSingle | App.tsx:96-103 | A single row is kept iff it belongs to the active workspace, is visible and matches the search. |
| App.FilteredData | App.tsx:94-104 | Nothing without an active workspace. Otherwise the rows of the active id that the user may see (checked without the workspace) and that the search matches. |
| App.FilteredDataAppend | App.tsx:94-104 | Both the grid as written and the corrected grid list rows in the order of the row store. |
| App.GridShowsMemberOwnRows | App.tsx:94-104 | In the grid as written, a MEMBER sees only its own rows, even when it administers the workspace. |
| App.WorkspaceAdminMissesRows | App.tsx:99 | A concrete MEMBER listed as workspace admin may write a row's `version`, which only an administrator may write (without the list it gets READ), and `canViewRow` with the workspace allows the row, yet the grid shows no row. |
| App.FilteredDataInWorkspace | components/AccessControl.tsx:31-33 | The corrected grid passes the workspace to `canViewRow`: the active rows the user may see in that workspace and that match the search. |
| App.WorkspaceAdminSeesWorkspaceRows | components/AccessControl.tsx:31-33 | The corrected grid shows everything the original grid shows, and a workspace administrator sees every matching row of the active workspace. |
| App.SetGroupPermission | App.tsx:502 | After the update the group has the given level on the column, and every other group and every other part of the column is unchanged. |
| App.SetColumnPermission | App.tsx:502 | Every column keeps its place. A column with another field is unchanged, and a column with the given field gets the group's new level with everything else kept. |
| App.UpdatePermission | App.tsx:502 | Only the workspaces with the given id change, and only in their columns' permissions. |
| App.FindUpdatedColumn | App.tsx:502 | A column lookup after the update returns the updated column in place of the old one. |
| App.PermissionTakesEffect | App.tsx:502 | After the update, a non-admin in the group gets the new level on that schema field, through the lifecycle lock. Users in other groups keep their access. |
| Clipboard.Bounds | App.tsx:199-202 | The rectangle spans the two corners: a cell is inside iff its row and column lie between the corners'. |
| Clipboard.IsSelected | App.tsx:114-121 | A cell is selected iff both corners exist and the cell lies inside their rectangle. |
| Clipboard.IsSelectedSymmetric | App.tsx:114-121 | The selection does not depend on which corner was clicked first, and both corners are selected. |
| Clipboard.RectTargetsMember | App.tsx:207-214 | The nested rectangle loops visit exactly the cells of the rectangle inside the grid, less column 0 when status is skipped. |
| Clipboard.FillRect | App.tsx:207-214 | The nested `for` loops produce the updates of the rectangle specification, in row-major order. |
| Clipboard.HandleDelete | App.tsx:197-215 | Delete/Backspace produces exactly the delete specification's updates. |
| Clipboard.DeleteClearsSelection | App.tsx:204-215 | A delete writes `''` to each selected cell inside the grid except the status column and to nothing else, in row-major order. |
| Clipboard.ClipboardMatrix | App.tsx:247-257 | The pasted matrix has no tab inside a cell and at least one cell per line, and it is empty only for empty text. |
| Clipboard.ClipboardMatrixLines | App.tsx:247-257 | The matrix has one row per line of the text, less a last line that is empty, and each row joined with tabs gives back its line. |
| Clipboard.CleanLine | App.tsx:280 | Every pasted value is trimmed. |
| Clipboard.MatrixTargetsMember | App.tsx:274-284 | The matrix loops write cell `(i, j)` of the matrix to grid cell `(minR+i, minC+j)`, and only where that cell is in the grid. |
| Clipboard.FillMatrix | App.tsx:274-284 | The nested `forEach` produces the updates of the matrix specification. |
| Clipboard.HandlePaste | App.tsx:247-286 | Paste produces exactly the paste specification's updates, and nothing without text or without a selection. |
| Clipboard.PasteWritesTargets | App.tsx:260-285 | A paste writes one update per target cell of its fill or of its matrix, in order. |
| Clipboard.SingleValueFillsSelection | App.tsx:261-272 | One copied value over a larger selection fills every selected cell inside the grid, status included, with the trimmed value. |
| Clipboard.MatrixAnchoredAtTopLeft | App.tsx:273-284 | Otherwise the matrix is anchored at the top-left selected cell, whatever the selection's size, and nothing lands outside it. |
| Clipboard.GridFields | App.tsx:106-112 | The grid columns are `status` followed by the workspace's fields, and none without an active workspace. |
| Policy.NextLevel | components/PolicyView.tsx:107 | The next level always differs from the current one and is one step up the cycle NONE, READ, WRITE. |
| Policy.CycleOfThree | components/PolicyView.tsx:107 | Three clicks return to the start, passing through all three levels. |
| Policy.CycleAdvances | components/PolicyView.tsx:104-109 | A click moves the group's level on the column to the next one and leaves every other group's level unchanged. |
| Policy.CycleFromMissingEntry | components/PolicyView.tsx:106 | A group with no configured level counts as NONE, so the first click gives READ. |
| Policy.CycleThreeTimes | components/PolicyView.tsx:104-109 | Three clicks restore every group's level on that column. |
| Policy.GroupIdsMember | components/PolicyView.tsx:51 | The default id list holds exactly the ids of the groups. |
| Policy.Enabled | components/PolicyView.tsx:47 | The filter keeps exactly the groups whose id is listed. |
| Policy.EnabledAppend | components/PolicyView.tsx:47 | The filter keeps the groups' order. |
| Policy.ActiveGroups | components/PolicyView.tsx:45-48 | Without a list every group is enabled. With a list, exactly the listed groups are. |
| Policy.EmptyListEnablesNone | components/PolicyView.tsx:46-47 | An empty list, unlike a missing one, enables no group. |
| Policy.ToggleGroupFlipsOne | components/PolicyView.tsx:50-59 | A toggle flips whether the clicked id is listed and keeps every other id's membership. |
| Policy.ToggleGroupSwitchesActive | components/PolicyView.tsx:50-59 | After a toggle a group is enabled iff its enabled state differed from the toggled state, i.e. exactly the clicked group switches. |
| Policy.ToggleGroupTwice | components/PolicyView.tsx:50-59 | A second click restores the clicked id's membership in the list. |
| Policy.UpdateActiveGroups | App.tsx:503 | `onUpdateWorkspace` replaces the group list of the workspaces with that id and changes nothing else. |
| Policy.NonBlankMember | components/PolicyView.tsx:89 | The filter keeps exactly the lines with a non-whitespace character. |
| Policy.NonBlankAppend | components/PolicyView.tsx:89 | The filter keeps the lines' order: it distributes over concatenation and keeps a single line iff it is not blank. |
| Policy.PastedUser | components/PolicyView.tsx:93-99 | A pasted line fails only when it needs the default group and there is no group. |
| Policy.PastedUsers | components/PolicyView.tsx:93-99 | The mapping fails iff some line fails. Otherwise it gives one user per line, in order, each built from its own line and index. |
| Policy.PasteOneUserPerLine | components/PolicyView.tsx:85-102 | With groups and a confirmed paste, the new user list has one user per non-blank line. |
| Policy.PasteWithoutGroups | components/PolicyView.tsx:94-97 | With no group, the paste succeeds iff every non-blank line names its own group. |
| Policy.PasteDefaults | components/PolicyView.tsx:94-98 | A one-cell line gets that cell as id (or the `U-<now>-<index>` id when it is empty), the name "New User", the MEMBER role, the first group and no manager. |
| Policy.PasteKeepsFullLine | components/PolicyView.tsx:93-99 | A line with five nonempty cells keeps its id, name, group and manager, and an ADMIN or LEADER role cell gives that role. |
| Policy.BlankPasteEmptiesList | components/PolicyView.tsx:87-92 | Any nonempty text whose lines are all blank passes the empty-text guard, and the confirmed paste replaces the user list with an empty one, whatever the groups. |
| Designer.Open | components/TemplateDesigner.tsx:17-37 | A new design starts with the creator as its one administrator, no name and the title column. An edited one takes its name, columns and administrators from the workspace. The group list is every initial group for a new design, and the workspace's list, or every initial group when it has none, for an edited one. It is nonempty unless the workspace stored an empty one. |
| Designer.ToggleGroup | components/TemplateDesigner.tsx:41-45 | Flips whether the group is selected, keeps every other group's membership and changes nothing else. |
| Designer.ToggleAdmin | components/TemplateDesigner.tsx:47-51 | Flips whether the user is an administrator, keeps every other user's membership and changes nothing else. |
| Designer.ToggleTwiceRestores | components/TemplateDesigner.tsx:41-51 | A second toggle restores both membership lists. |
| Designer.SlugPiece | components/TemplateDesigner.tsx:39 | Every character maps to slug characters, and it maps to something other than `_` iff it lower-cases into `[a-z0-9]`. |
| Designer.SlugifyIsSlug | components/TemplateDesigner.tsx:39 | The result of `slugify` is a nonempty field name of `[a-z0-9_]` that neither starts nor ends with `_`. |
| Designer.SlugifyFallback | components/TemplateDesigner.tsx:39 | The random `field_` name is used iff no character lower-cases into `[a-z0-9]`. |
| Designer.SlugifyIdempotent | components/TemplateDesigner.tsx:39 | Slugifying a slug returns it unchanged. |
| Designer.InferType | components/TemplateDesigner.tsx:71-73 | A value infers NUMBER iff it is a number, DATE iff it is a string starting with `dddd-dd-dd`, else TEXT, never SELECT. |
| Designer.InferColumns | components/TemplateDesigner.tsx:69-81 | One column per key of the first row, in order, each built from its key, value and suffix. |
| Designer.InferredColumnsGrantGeneral | components/TemplateDesigner.tsx:75-80 | An inferred column is labelled by its key and grants WRITE to G-GENERAL and nothing to any other group. |
| Designer.Upload | components/TemplateDesigner.tsx:66-85 | An empty sheet changes nothing. Otherwise the columns are inferred, the rows are kept for import, an empty name becomes the given base name, and the group and administrator lists are kept. |
| Designer.AddColumn | components/TemplateDesigner.tsx:93-96 | Appends one TEXT column `field_<id>` labelled 新字段 and keeps the others. |
| Designer.AddThenRemove | components/TemplateDesigner.tsx:93-100 | Removing the column just added restores the design, and when no column had the field `field_<id>` before, a lookup finds exactly the added column. |
| Designer.RemoveColumn | components/TemplateDesigner.tsx:98-100 | Drops the column at the index, or nothing when the index is out of range, and keeps the others in order. |
| Designer.PatchChangesOnlyGiven | components/TemplateDesigner.tsx:104 | An empty patch changes nothing. A patch that sets the label but not the field or type sets the label and keeps the field and type. |
| Designer.UpdateColumn | components/TemplateDesigner.tsx:102-106 | The column at the index is patched and every other column is unchanged. |
| Designer.BuildRow | components/TemplateDesigner.tsx:124-137 | The per-row loop builds the imported row of the specification: the fixed keys, then one cell per column. |
| Designer.ImportedRows | components/TemplateDesigner.tsx:123-138 | One imported row per sheet record, in order. |
| Designer.BuildRows | components/TemplateDesigner.tsx:122-138 | The `map` over the records gives exactly the specified imported rows. |
| Designer.Save | components/TemplateDesigner.tsx:108-141 | The save handler returns exactly the save specification's result. |
| Designer.SaveValidation | components/TemplateDesigner.tsx:109-123 | A save fails iff the name is empty or no group is selected, and an empty name reports the missing name. A success carries the design's name, columns, groups and administrators, keeps an edited workspace's id, and carries rows iff some were imported. |
| Designer.CopyCellsOnlyCells | components/TemplateDesigner.tsx:133-135 | Copying cells changes only the cells, never the fixed keys, when no column is named like one. |
| Designer.CopyCellsReadsLabel | components/TemplateDesigner.tsx:134 | A column's cell holds the record's value under the column's label. |
| Designer.SavedRowsShape | components/TemplateDesigner.tsx:123-137 | Imported row `k` exists for every sheet record, is APPROVED, is owned by the saver, has version 1, belongs to the saved workspace and holds each column's labelled value. |
| Designer.CreatorAdministersNewWorkspace | components/TemplateDesigner.tsx:33-36 | A workspace saved from a new design lists its creator as administrator, so the creator may write every field. |
| Designer.EditKeepsAdministrators | components/TemplateDesigner.tsx:27-33 | Opening and saving an existing workspace whose name is nonempty and whose group list is not `[]` succeeds, and the same users administer it afterwards. |

## Left out

- I/O and effects: the XLSX and `FileReader` parsing, the clipboard read, Ctrl+C copy, the keyboard event plumbing, toasts, the React effects that pick the active workspace, and rendering are not part of this model. The uploaded sheet and the clipboard text are parameters.
- The clock (`Date.now()`, `new Date().toISOString()`), `Math.random()` suffixes and the audit-log id generator are parameters (`now`, `isoNow`, `suffixes`, `id`, `logId`).
- `confirm()` in the personnel paste is the parameter `confirmed`.
- The search filter of `filteredData` is an abstract predicate `matches` on the row. `Object.values(row).join(' ').toLowerCase()` is not modelled.
- Types.Set: writing a non-number to `version` (which only a workspace administrator may write) leaves the number unchanged. JavaScript stores the string, with two effects the model does not capture. First, `version++` at App.tsx:179 coerces it: `"7"` gives 8 and `''` gives 1, where the model gives the old version plus one; a non-numeric string gives NaN. Second, a later write of the same string in the same batch compares equal in the source and logs nothing, while the model compares against the unchanged number and logs and counts it again.
- Cell values are strings or integers: floating point is not modelled.
- Designer.Upload: the default name is the parameter `baseName`. Deriving it from the file name with `file.name.replace(/\.[^/.]+$/, "")` (components/TemplateDesigner.tsx:85) is not modelled.
- One batch, one save or one personnel paste reads the clock at a single instant: every log id, log timestamp and `updatedAt` of a batch (App.tsx:161, 168 and 180) share `now`/`isoNow`, as do the imported rows' ids and `updatedAt` of a save (components/TemplateDesigner.tsx:126, 131) and the fallback `U-<now>-<index>` ids of a paste (components/PolicyView.tsx:94). The source reads the clock again at each of these places, once per pasted line in the paste.
- Text.TrimIsSlice: the whitespace set is the common ASCII and Unicode separators listed in `Text.IsSpace`, not every character JavaScript's `trim` removes.
- Designer.SlugPiece: `toLowerCase` is modelled only for the characters that can lower-case into `[a-z0-9]` (ASCII letters, the Kelvin sign and dotted capital I). Every other character becomes `_`, or `__` outside the Basic Multilingual Plane, as JavaScript's UTF-16 regex does.
- Designer.SlugifyIsSlug: the random suffix is assumed to be a base-36 string; `Math.random().toString(36).substr(2, 4)` can in rare cases be shorter or empty.
- Designer.InferColumns: `Object.keys` order is the record's order. JavaScript's numeric-first key ordering is not modelled.
- Designer.ApplyPatch: a patch names each property it sets. A property present in `updates` with the value `undefined`, which `{...col, ...updates}` would clear, is not modelled.
- Designer.UpdateColumn: requires an index inside the column list. The source, given an out-of-range index, would append a sparse entry; the UI only passes existing indices.
- Policy.PastedRole: a role cell that names no role yields MEMBER. The source casts any nonempty string to a role, and `canViewRow`/`getColumnAccess` then treat an unknown role like MEMBER.
- Policy.PastedUsers: the exception thrown by `groups[0].id` with no group is modelled as `None`, which leaves the user list unchanged.
- AccessControl.GetAllSubordinates: requires the whole user table to be acyclic (`Ranked`). The source recurses without end only on a cycle reached by walking down from the leader; a table with a cycle elsewhere, on which the source terminates, is not covered.
- AccessControl.CanViewRow: requires the whole user table to be acyclic, but only when a LEADER looks at another user's row outside a workspace it administers, the one case that calls `getAllSubordinates`. In that case a table with a cycle away from the leader, on which the source terminates, is not covered, and neither is the endless recursion on a cycle below the leader.
- The `onSave` wiring in App.tsx:520-528 (install or replace the workspace, prepend imported rows) is not modelled. The saved workspace and rows are the result of `Designer.Save`.
- `AuditView.tsx`, `services/geminiService.ts`, user and group add/delete/update callbacks and new-row creation are outside the modelled core.

## Findings

| source | as written | input that shows it | evidently intended | confidence | as-written member | corrected member |
|---|---|---|---|---|---|---|
| App.tsx:99 | `filteredData` calls `canViewRow(currentUser, row, users)` without the active workspace, so the workspace-administrator rule at components/AccessControl.tsx:31-34 never applies in the grid | a MEMBER `u1` listed in `adminIds` of workspace `W1`, and a row of `W1` owned by someone else: `getColumnAccess` grants WRITE, but the grid hides the row | pass `activeWorkspace` so workspace administrators see the rows they may edit | not executed | App.WorkspaceAdminMissesRows | App.WorkspaceAdminSeesWorkspaceRows |
