/** The workspace designer (components/TemplateDesigner.tsx): the editable
    draft of a workspace (name, enabled groups, administrators, columns and
    rows waiting to be imported), the field ids derived from spreadsheet
    headers, the column list editing and the save step. The component state
    is a `Design` value; each handler returns the next one. Random suffixes,
    `Date.now()` and `new Date().toISOString()` are parameters. */
module Designer {
  import opened Types
  import opened Text
  import opened AccessControl

  /** A parsed spreadsheet row (`sheet_to_json`): its keys in order, each
      with a cell value. */
  type Record = seq<(string, Value)>

  /** `record[key]`: the value of the first entry with that key. */
  function Lookup(record: Record, key: string): Value {
    if record == [] then Undefined
    else if record[0].0 == key then record[0].1
    else Lookup(record[1..], key)
  }

  /** The component state. */
  datatype Design = Design(
    name: string,
    activeGroupIds: seq<string>,
    adminIds: seq<string>,
    columns: seq<Column>,
    importedRows: seq<Record>)

  /** The ids of `INITIAL_GROUPS` (constants.tsx). */
  const InitialGroupIds: seq<string> := ["G-GENERAL", "G-MANAGER", "G-AUDIT", "G-VP"]

  const GeneralGroup := "G-GENERAL"

  /** The column a new draft starts with. */
  const TitleColumn := Column("title", "主要事由", FieldType.Text, None, None, Some(map[GeneralGroup := Write]))

  // ---------------------------------------------------------------------
  // The opening state (`useState` defaults, then the effect)
  // ---------------------------------------------------------------------

  /** The draft after the mount effect: a new workspace starts with the
      title column, every initial group and the creator as its only
      administrator; an edited one takes the workspace's name, columns and
      lists, an absent group list meaning every initial group and an absent
      administrator list meaning none. */
  function Open(initial: Option<Workspace>, currentUserId: string): (d: Design)
    ensures initial.None? ==> d.adminIds == [currentUserId] && d.name == "" && d.columns == [TitleColumn]
    ensures initial.Some? ==> d.adminIds == initial.value.adminIds.GetOr([])
    ensures initial.Some? ==> d.name == initial.value.name && d.columns == initial.value.columns
    ensures d.activeGroupIds == if initial.None? then InitialGroupIds else initial.value.activeGroupIds.GetOr(InitialGroupIds)
    ensures d.activeGroupIds != [] || (initial.Some? && initial.value.activeGroupIds == Some([]))
    ensures d.importedRows == []
  {
    match initial
    case None => Design("", InitialGroupIds, [currentUserId], [TitleColumn], [])
    case Some(ws) =>
      Design(ws.name, ws.activeGroupIds.GetOr(InitialGroupIds), ws.adminIds.GetOr([]), ws.columns, [])
  }

  // ---------------------------------------------------------------------
  // Group and administrator switches (`toggleGroup`, `toggleAdmin`)
  // ---------------------------------------------------------------------

  function ToggleGroup(d: Design, groupId: string): (d': Design)
    ensures groupId in d'.activeGroupIds <==> groupId !in d.activeGroupIds
    ensures forall id :: id != groupId ==> (id in d'.activeGroupIds <==> id in d.activeGroupIds)
    ensures d' == d.(activeGroupIds := d'.activeGroupIds)
  {
    d.(activeGroupIds := Toggle(d.activeGroupIds, groupId))
  }

  function ToggleAdmin(d: Design, userId: string): (d': Design)
    ensures userId in d'.adminIds <==> userId !in d.adminIds
    ensures forall id :: id != userId ==> (id in d'.adminIds <==> id in d.adminIds)
    ensures d' == d.(adminIds := d'.adminIds)
  {
    d.(adminIds := Toggle(d.adminIds, userId))
  }

  /** Two clicks on the same group or administrator restore the set. */
  lemma ToggleTwiceRestores(d: Design, id: string)
    ensures forall x :: x in ToggleGroup(ToggleGroup(d, id), id).activeGroupIds <==> x in d.activeGroupIds
    ensures forall x :: x in ToggleAdmin(ToggleAdmin(d, id), id).adminIds <==> x in d.adminIds
  {
    ToggleTwice(d.activeGroupIds, id);
    ToggleTwice(d.adminIds, id);
  }

  // ---------------------------------------------------------------------
  // Field ids from headers (`slugify`)
  // ---------------------------------------------------------------------

  predicate IsSlugChar(c: char) {
    'a' <= c <= 'z' || '0' <= c <= '9' || c == '_'
  }

  /** A well-formed field id: `[a-z0-9_]` only, not empty, no `_` at either end. */
  predicate IsSlug(s: string) {
    && s != []
    && s[0] != '_' && s[|s| - 1] != '_'
    && forall i :: 0 <= i < |s| ==> IsSlugChar(s[i])
  }

  /** The digits of `Math.random().toString(36).substr(2, 4)`. */
  predicate IsBase36(s: string) {
    s != [] && forall i :: 0 <= i < |s| ==> 'a' <= s[i] <= 'z' || '0' <= s[i] <= '9'
  }

  /** A character whose lower case survives `replace(/[^a-z0-9]/g, '_')`. */
  predicate Significant(c: char) {
    'a' <= c <= 'z' || '0' <= c <= '9' || 'A' <= c <= 'Z' || c == 'K' || c == 'İ'
  }

  /** What one character becomes under `toLowerCase()` followed by the
      replacement of every UTF-16 unit outside `[a-z0-9]` by `_`. Only ASCII
      capitals, KELVIN SIGN (to `k`) and CAPITAL I WITH DOT ABOVE (to `i`
      and a combining dot) lower-case into `[a-z0-9]`; a character outside
      the Basic Multilingual Plane is two units. */
  function SlugPiece(c: char): (p: string)
    ensures 1 <= |p| <= 2
    ensures forall i :: 0 <= i < |p| ==> IsSlugChar(p[i])
    ensures Significant(c) <==> p[0] != '_'
    ensures !Significant(c) ==> forall i :: 0 <= i < |p| ==> p[i] == '_'
  {
    if 'a' <= c <= 'z' || '0' <= c <= '9' then [c]
    else if 'A' <= c <= 'Z' then [(c as int + 32) as char]
    else if c == 'K' then "k"
    else if c == 'İ' then "i_"
    else if c as int > 0xFFFF then "__"
    else "_"
  }

  /** The string after `toLowerCase().replace(/[^a-z0-9]/g, '_')`. */
  function Mapped(s: string): string {
    if s == [] then [] else SlugPiece(s[0]) + Mapped(s[1..])
  }

  lemma {:induction false} MappedSlugChars(s: string)
    ensures forall i :: 0 <= i < |Mapped(s)| ==> IsSlugChar(Mapped(s)[i])
  {
    if s != [] {
      MappedSlugChars(s[1..]);
      var p := SlugPiece(s[0]);
      forall i | 0 <= i < |Mapped(s)| ensures IsSlugChar(Mapped(s)[i]) {
        if i >= |p| {
          assert Mapped(s)[i] == Mapped(s[1..])[i - |p|];
        }
      }
    }
  }

  /** `replace(/^_+/, '')`. */
  function DropLeading(s: string): string {
    if s != [] && s[0] == '_' then DropLeading(s[1..]) else s
  }

  /** `replace(/_+$/, '')`. */
  function DropTrailing(s: string): string {
    if s != [] && s[|s| - 1] == '_' then DropTrailing(s[..|s| - 1]) else s
  }

  /** `DropLeading` removes a prefix of `_` only, and what is left does not
      start with `_`. */
  lemma {:induction false} DropLeadingFacts(s: string)
    ensures |DropLeading(s)| <= |s| && DropLeading(s) == s[|s| - |DropLeading(s)|..]
    ensures forall i :: 0 <= i < |s| - |DropLeading(s)| ==> s[i] == '_'
    ensures DropLeading(s) == [] || DropLeading(s)[0] != '_'
  {
    if s != [] && s[0] == '_' {
      DropLeadingFacts(s[1..]);
      var r := DropLeading(s);
      assert s[1..][|s| - 1 - |r|..] == s[|s| - |r|..];
      forall i | 1 <= i < |s| - |r| ensures s[i] == '_' {
        assert s[i] == s[1..][i - 1];
      }
    }
  }

  /** `DropTrailing` removes a suffix of `_` only, and what is left does not
      end with `_`. */
  lemma {:induction false} DropTrailingFacts(s: string)
    ensures |DropTrailing(s)| <= |s| && DropTrailing(s) == s[..|DropTrailing(s)|]
    ensures forall i :: |DropTrailing(s)| <= i < |s| ==> s[i] == '_'
    ensures DropTrailing(s) == [] || DropTrailing(s)[|DropTrailing(s)| - 1] != '_'
  {
    if s != [] && s[|s| - 1] == '_' {
      DropTrailingFacts(s[..|s| - 1]);
      assert s[..|s| - 1][..|DropTrailing(s)|] == s[..|DropTrailing(s)|];
    }
  }

  /** `slugify(str)`, with `suffix` for the random fallback digits. */
  function Slugify(str: string, suffix: string): string {
    var core := DropTrailing(DropLeading(Mapped(str)));
    if core != "" then core else "field_" + suffix
  }

  /** The stripped core is a slice of the mapped string, so it keeps the
      character set, and it has no `_` at either end. */
  lemma CoreIsSlug(str: string)
    ensures var core := DropTrailing(DropLeading(Mapped(str)));
      core == [] || IsSlug(core)
  {
    var m := Mapped(str);
    var t := DropLeading(m);
    var core := DropTrailing(t);
    MappedSlugChars(str);
    DropLeadingFacts(m);
    DropTrailingFacts(t);
    SliceSlugChars(m, |m| - |t|, |core|);
    assert core == m[|m| - |t|..][..|core|];
  }

  lemma SliceSlugChars(m: string, k: nat, n: nat)
    requires k + n <= |m|
    requires forall i :: 0 <= i < |m| ==> IsSlugChar(m[i])
    ensures forall i :: 0 <= i < n ==> IsSlugChar(m[k..][..n][i])
  {
    forall i | 0 <= i < n ensures IsSlugChar(m[k..][..n][i]) {
      assert m[k..][..n][i] == m[k + i];
    }
  }

  /** `slugify` always yields a well-formed field id, provided the random
      fallback digits are base-36 digits. */
  lemma SlugifyIsSlug(str: string, suffix: string)
    requires IsBase36(suffix)
    ensures IsSlug(Slugify(str, suffix))
  {
    CoreIsSlug(str);
    var s := Slugify(str, suffix);
    if DropTrailing(DropLeading(Mapped(str))) == "" {
      assert s == "field_" + suffix;
      forall i | 0 <= i < |s| ensures IsSlugChar(s[i]) {
        if i >= 6 {
          assert s[i] == suffix[i - 6];
        }
      }
    }
  }

  /** The mapped string is all `_` exactly when no character is significant. */
  lemma {:induction false} MappedAllUnderscore(s: string)
    ensures (forall i :: 0 <= i < |Mapped(s)| ==> Mapped(s)[i] == '_')
      <==> (forall i :: 0 <= i < |s| ==> !Significant(s[i]))
  {
    if s != [] {
      MappedAllUnderscore(s[1..]);
      var p := SlugPiece(s[0]);
      var m := Mapped(s);
      assert m == p + Mapped(s[1..]);
      if forall i :: 0 <= i < |s| ==> !Significant(s[i]) {
        assert !Significant(s[0]);
        forall i | 0 <= i < |s[1..]| ensures !Significant(s[1..][i]) {
          assert s[1..][i] == s[i + 1];
        }
        forall i | 0 <= i < |m| ensures m[i] == '_' {
          if i >= |p| {
            assert m[i] == Mapped(s[1..])[i - |p|];
          }
        }
      }
      if forall i :: 0 <= i < |m| ==> m[i] == '_' {
        assert m[0] == p[0];
        forall i | 0 <= i < |s[1..]| ensures !Significant(s[1..][i]) {
          forall j | 0 <= j < |Mapped(s[1..])| ensures Mapped(s[1..])[j] == '_' {
            assert Mapped(s[1..])[j] == m[|p| + j];
          }
        }
        forall i | 0 <= i < |s| ensures !Significant(s[i]) {
          if i > 0 {
            assert s[i] == s[1..][i - 1];
          }
        }
      }
    }
  }

  /** The random fallback is taken exactly when the header holds no
      significant character. */
  lemma SlugifyFallback(str: string, suffix: string)
    ensures DropTrailing(DropLeading(Mapped(str))) == "" <==> forall i :: 0 <= i < |str| ==> !Significant(str[i])
    ensures (forall i :: 0 <= i < |str| ==> !Significant(str[i])) ==> Slugify(str, suffix) == "field_" + suffix
  {
    MappedAllUnderscore(str);
    var m := Mapped(str);
    var t := DropLeading(m);
    DropLeadingFacts(m);
    DropTrailingFacts(t);
  }

  /** A header made of lower-case letters, digits and `_` maps to itself. */
  lemma {:induction false} MappedIdentity(s: string)
    requires forall i :: 0 <= i < |s| ==> IsSlugChar(s[i])
    ensures Mapped(s) == s
  {
    if s != [] {
      forall i | 0 <= i < |s[1..]| ensures IsSlugChar(s[1..][i]) {
        assert s[1..][i] == s[i + 1];
      }
      MappedIdentity(s[1..]);
      assert s == [s[0]] + s[1..];
    }
  }

  /** A field id is its own slug: slugifying is idempotent. */
  lemma SlugifyIdempotent(str: string, suffix: string, suffix': string)
    requires IsBase36(suffix)
    ensures Slugify(Slugify(str, suffix), suffix') == Slugify(str, suffix)
  {
    SlugifyIsSlug(str, suffix);
    var s := Slugify(str, suffix);
    MappedIdentity(s);
  }

  // ---------------------------------------------------------------------
  // Columns inferred from the first spreadsheet row (`handleExcelUpload`)
  // ---------------------------------------------------------------------

  predicate IsDigit(c: char) { '0' <= c <= '9' }

  /** `/^\d{4}-\d{2}-\d{2}/`. */
  predicate StartsWithDate(s: string) {
    && |s| >= 10
    && IsDigit(s[0]) && IsDigit(s[1]) && IsDigit(s[2]) && IsDigit(s[3]) && s[4] == '-'
    && IsDigit(s[5]) && IsDigit(s[6]) && s[7] == '-' && IsDigit(s[8]) && IsDigit(s[9])
  }

  /** The field type guessed from a cell of the first row. */
  function InferType(v: Value): (t: FieldType)
    ensures t == Number <==> v.Num?
    ensures t == Date <==> v.Str? && StartsWithDate(v.s)
    ensures t != Select
  {
    if v.Num? then Number
    else if v.Str? && StartsWithDate(v.s) then Date
    else FieldType.Text
  }

  /** The column built for one header of the first row. */
  function InferredColumn(key: string, v: Value, suffix: string): Column {
    Column(Slugify(key, suffix), key, InferType(v), None, None, Some(map[GeneralGroup := Write]))
  }

  /** `Object.keys(firstRow).map(...)`; `suffixes[k]` stands for the random
      fallback digits drawn for the `k`-th header. */
  function InferColumns(firstRow: Record, suffixes: seq<string>): (cols: seq<Column>)
    requires |suffixes| == |firstRow|
    ensures |cols| == |firstRow|
    ensures forall k :: 0 <= k < |firstRow| ==> cols[k] == InferredColumn(firstRow[k].0, firstRow[k].1, suffixes[k])
  {
    seq(|firstRow|, k requires 0 <= k < |firstRow| => InferredColumn(firstRow[k].0, firstRow[k].1, suffixes[k]))
  }

  /** Every inferred column keeps the header as its label, and only the
      general staff group may write it. */
  lemma InferredColumnsGrantGeneral(firstRow: Record, suffixes: seq<string>, k: nat, g: string)
    requires |suffixes| == |firstRow| && k < |firstRow|
    ensures var col := InferColumns(firstRow, suffixes)[k];
      && col.caption == firstRow[k].0
      && ConfiguredPermission(col, g) == if g == GeneralGroup then Write else NoAccess
  {
  }

  /** The upload (`reader.onload`): an empty sheet changes nothing; otherwise
      the columns are replaced by the inferred ones, the rows wait for the
      save, and an empty name takes the file's base name. The sheet is the
      parsed list of records. */
  function Upload(d: Design, sheet: seq<Record>, suffixes: seq<string>, baseName: string): (d': Design)
    requires sheet != [] ==> |suffixes| == |sheet[0]|
    ensures sheet == [] ==> d' == d
    ensures sheet != [] ==> d'.columns == InferColumns(sheet[0], suffixes) && d'.importedRows == sheet
    ensures sheet != [] ==> d'.name == (if d.name == "" then baseName else d.name)
    ensures d'.activeGroupIds == d.activeGroupIds && d'.adminIds == d.adminIds
  {
    if sheet == [] then d
    else d.(columns := InferColumns(sheet[0], suffixes), importedRows := sheet,
            name := if d.name == "" then baseName else d.name)
  }

  // ---------------------------------------------------------------------
  // Column list editing (`addColumn`, `removeColumn`, `updateColumn`)
  // ---------------------------------------------------------------------

  /** `addColumn()`: a text column `field_<id>` captioned 新字段 at the end. */
  function AddColumn(d: Design, id: string): (d': Design)
    ensures |d'.columns| == |d.columns| + 1 && d'.columns[..|d.columns|] == d.columns
    ensures d'.columns[|d.columns|] == Column("field_" + id, "新字段", FieldType.Text, None, None, None)
    ensures d' == d.(columns := d'.columns)
  {
    d.(columns := d.columns + [Column("field_" + id, "新字段", FieldType.Text, None, None, None)])
  }

  /** `removeColumn(index)`: exactly the column at `index` goes, the others
      keep their order; an index past the end removes nothing. */
  function RemoveColumn(d: Design, index: nat): (d': Design)
    ensures index < |d.columns| ==> d'.columns == d.columns[..index] + d.columns[index + 1..]
    ensures index >= |d.columns| ==> d'.columns == d.columns
    ensures d' == d.(columns := d'.columns)
  {
    d.(columns := RemoveAt(d.columns, index))
  }

  /** Removing the column just added, at the end of the list, restores the
      design, and the added column is found under its new field. */
  lemma AddThenRemove(d: Design, id: string)
    ensures RemoveColumn(AddColumn(d, id), |d.columns|) == d
    ensures (forall c :: c in d.columns ==> c.field != "field_" + id) ==>
      FindColumn(AddColumn(d, id).columns, "field_" + id)
        == Some(Column("field_" + id, "新字段", FieldType.Text, None, None, None))
  {
    var d' := AddColumn(d, id);
    assert d'.columns[..|d.columns|] + d'.columns[|d.columns| + 1..] == d.columns;
    FindColumnFirst(d'.columns, "field_" + id);
  }

  /** The properties of a `Partial<ColumnPermission>`: a present one replaces
      the column's, an absent one leaves it. */
  datatype ColumnPatch = ColumnPatch(
    field: Option<string>,
    caption: Option<string>,
    fieldType: Option<FieldType>,
    options: Option<Option<seq<string>>>,
    isSensitive: Option<Option<bool>>,
    groupPermissions: Option<Option<map<string, AccessLevel>>>)

  /** `{...col, ...patch}`. */
  function ApplyPatch(col: Column, p: ColumnPatch): Column {
    Column(
      p.field.GetOr(col.field),
      p.caption.GetOr(col.caption),
      p.fieldType.GetOr(col.fieldType),
      p.options.GetOr(col.options),
      p.isSensitive.GetOr(col.isSensitive),
      p.groupPermissions.GetOr(col.groupPermissions))
  }

  /** An empty patch changes nothing, and a patch of one property changes
      that property only. */
  lemma PatchChangesOnlyGiven(col: Column, p: ColumnPatch)
    ensures p == ColumnPatch(None, None, None, None, None, None) ==> ApplyPatch(col, p) == col
    ensures p.caption.Some? && p.field.None? && p.fieldType.None? ==>
      ApplyPatch(col, p).caption == p.caption.value && ApplyPatch(col, p).field == col.field
      && ApplyPatch(col, p).fieldType == col.fieldType
  {
  }

  /** `updateColumn(index, patch)`: copies the list and patches one entry. */
  method UpdateColumn(columns: seq<Column>, index: nat, p: ColumnPatch) returns (newCols: seq<Column>)
    requires index < |columns|
    ensures |newCols| == |columns|
    ensures newCols[index] == ApplyPatch(columns[index], p)
    ensures forall j :: 0 <= j < |columns| && j != index ==> newCols[j] == columns[j]
  {
    var a := new Column[|columns|](j requires 0 <= j < |columns| => columns[j]);
    a[index] := ApplyPatch(a[index], p);
    newCols := a[..];
  }

  // ---------------------------------------------------------------------
  // Saving (`handleSave`)
  // ---------------------------------------------------------------------

  datatype SaveError = MissingName | NoGroupSelected

  /** What `onSave` receives. */
  datatype Saved = Saved(ws: Workspace, imported: Option<seq<Row>>)

  /** `initialData?.id || 'WS-' + Date.now()`. */
  function SavedId(initial: Option<Workspace>, now: nat): string {
    if initial.Some? && initial.value.id != "" then initial.value.id else "WS-" + NatToString(now)
  }

  /** The fixed keys of an imported row before its cells are copied. */
  function ImportBase(idx: nat, wsId: string, currentUserId: string, now: nat, isoNow: string): Row {
    Row("R-IMP-" + NatToString(now) + "-" + NatToString(idx), wsId, Approved, currentUserId, 1, isoNow, map[])
  }

  /** The row after `newRow[col.field] = record[col.caption]` for the columns
      of `cols` in order. */
  function CopyCells(base: Row, cols: seq<Column>, record: Record): Row
    decreases |cols|
  {
    if cols == [] then base
    else
      var last := cols[|cols| - 1];
      Set(CopyCells(base, cols[..|cols| - 1], record), last.field, Lookup(record, last.caption))
  }

  /** One imported row: the inner `columns.forEach`. */
  method BuildRow(columns: seq<Column>, record: Record, idx: nat, wsId: string, currentUserId: string,
                  now: nat, isoNow: string) returns (row: Row)
    ensures row == CopyCells(ImportBase(idx, wsId, currentUserId, now, isoNow), columns, record)
  {
    row := ImportBase(idx, wsId, currentUserId, now, isoNow);
    ghost var base := row;
    var i := 0;
    while i < |columns|
      invariant 0 <= i <= |columns|
      invariant row == CopyCells(base, columns[..i], record)
    {
      assert columns[..i + 1][..i] == columns[..i];
      var col := columns[i];
      row := Set(row, col.field, Lookup(record, col.caption));
      i := i + 1;
    }
    assert columns[..i] == columns;
  }

  /** The imported rows as a function of the records: `tempImportedRows.map`. */
  function ImportedRows(columns: seq<Column>, records: seq<Record>, wsId: string, currentUserId: string,
                        now: nat, isoNow: string): (rows: seq<Row>)
    ensures |rows| == |records|
  {
    seq(|records|, k requires 0 <= k < |records| =>
      CopyCells(ImportBase(k, wsId, currentUserId, now, isoNow), columns, records[k]))
  }

  method BuildRows(columns: seq<Column>, records: seq<Record>, wsId: string, currentUserId: string,
                   now: nat, isoNow: string) returns (rows: seq<Row>)
    ensures rows == ImportedRows(columns, records, wsId, currentUserId, now, isoNow)
  {
    rows := [];
    var idx := 0;
    while idx < |records|
      invariant 0 <= idx <= |records| && |rows| == idx
      invariant forall k :: 0 <= k < idx ==>
        rows[k] == CopyCells(ImportBase(k, wsId, currentUserId, now, isoNow), columns, records[k])
    {
      var row := BuildRow(columns, records[idx], idx, wsId, currentUserId, now, isoNow);
      rows := rows + [row];
      idx := idx + 1;
    }
  }

  /** The save as a function of the draft. */
  function SaveResult(d: Design, initial: Option<Workspace>, currentUserId: string, now: nat, isoNow: string)
    : Result<Saved, SaveError>
  {
    if d.name == "" then Failure(MissingName)
    else if d.activeGroupIds == [] then Failure(NoGroupSelected)
    else
      var wsId := SavedId(initial, now);
      var icon := if initial.Some? && initial.value.icon != "" then initial.value.icon else "Layout";
      var ws := Workspace(wsId, d.name, icon, d.columns, Some(d.activeGroupIds), Some(d.adminIds));
      Success(Saved(ws, if d.importedRows == [] then None
                        else Some(ImportedRows(d.columns, d.importedRows, wsId, currentUserId, now, isoNow))))
  }

  /** `handleSave`. */
  method Save(d: Design, initial: Option<Workspace>, currentUserId: string, now: nat, isoNow: string)
    returns (r: Result<Saved, SaveError>)
    ensures r == SaveResult(d, initial, currentUserId, now, isoNow)
  {
    if d.name == "" {
      return Failure(MissingName);
    }
    if |d.activeGroupIds| == 0 {
      return Failure(NoGroupSelected);
    }
    var wsId := SavedId(initial, now);
    var icon := if initial.Some? && initial.value.icon != "" then initial.value.icon else "Layout";
    var ws := Workspace(wsId, d.name, icon, d.columns, Some(d.activeGroupIds), Some(d.adminIds));
    var imported: Option<seq<Row>> := None;
    if |d.importedRows| > 0 {
      var rows := BuildRows(d.columns, d.importedRows, wsId, currentUserId, now, isoNow);
      imported := Some(rows);
    }
    return Success(Saved(ws, imported));
  }

  /** The save is refused exactly when the name is empty or no group is
      selected, and a saved workspace carries the draft's contents. */
  lemma SaveValidation(d: Design, initial: Option<Workspace>, currentUserId: string, now: nat, isoNow: string)
    ensures var r := SaveResult(d, initial, currentUserId, now, isoNow);
      && (r.Failure? <==> d.name == "" || d.activeGroupIds == [])
      && (d.name == "" ==> r == Failure(MissingName))
      && (r.Success? ==>
            && r.value.ws.name == d.name && r.value.ws.columns == d.columns
            && r.value.ws.activeGroupIds == Some(d.activeGroupIds) && r.value.ws.adminIds == Some(d.adminIds)
            && (initial.Some? && initial.value.id != "" ==> r.value.ws.id == initial.value.id)
            && (r.value.imported.Some? <==> d.importedRows != []))
  {
  }

  /** When no column names a fixed key, copying cells changes the row's
      schema cells only. */
  lemma {:induction false} CopyCellsOnlyCells(base: Row, cols: seq<Column>, record: Record)
    requires forall j :: 0 <= j < |cols| ==> !IsReservedKey(cols[j].field)
    ensures CopyCells(base, cols, record).(fields := base.fields) == base
    decreases |cols|
  {
    if cols != [] {
      var init := cols[..|cols| - 1];
      CopyCellsOnlyCells(base, init, record);
    }
  }

  /** Each schema field of an imported row holds the record's value under the
      column's label (the last column wins when two share a field). */
  lemma {:induction false} CopyCellsReadsLabel(base: Row, cols: seq<Column>, record: Record, k: nat)
    requires k < |cols| && !IsReservedKey(cols[k].field)
    requires forall j :: k < j < |cols| ==> cols[j].field != cols[k].field
    ensures Get(CopyCells(base, cols, record), cols[k].field) == Lookup(record, cols[k].caption)
    decreases |cols|
  {
    var init := cols[..|cols| - 1];
    var last := cols[|cols| - 1];
    var prev := CopyCells(base, init, record);
    if k == |cols| - 1 {
      SetReadsBack(prev, last.field, Lookup(record, last.caption));
    } else {
      CopyCellsReadsLabel(base, init, record, k);
      SetKeepsOthers(prev, last.field, Lookup(record, last.caption), cols[k].field);
    }
  }

  /** Imported rows are APPROVED, owned by the saving user, at version 1 and
      in the saved workspace, unless a column's field is one of those keys;
      every schema field holds the record's value under the column label. */
  lemma SavedRowsShape(d: Design, initial: Option<Workspace>, currentUserId: string, now: nat, isoNow: string,
                       k: nat, j: nat)
    requires SaveResult(d, initial, currentUserId, now, isoNow).Success?
    requires k < |d.importedRows|
    requires forall c :: 0 <= c < |d.columns| ==> !IsReservedKey(d.columns[c].field)
    requires j < |d.columns| && forall c :: j < c < |d.columns| ==> d.columns[c].field != d.columns[j].field
    ensures var s := SaveResult(d, initial, currentUserId, now, isoNow).value;
      && s.imported.Some? && |s.imported.value| == |d.importedRows|
      && var row := s.imported.value[k];
      && row.status == Approved && row.ownerId == currentUserId && row.version == 1
      && row.workspaceId == s.ws.id
      && Get(row, d.columns[j].field) == Lookup(d.importedRows[k], d.columns[j].caption)
  {
    var wsId := SavedId(initial, now);
    var base := ImportBase(k, wsId, currentUserId, now, isoNow);
    var row := CopyCells(base, d.columns, d.importedRows[k]);
    CopyCellsOnlyCells(base, d.columns, d.importedRows[k]);
    CopyCellsReadsLabel(base, d.columns, d.importedRows[k], j);
  }

  /** The creator of a new workspace administers it once it is saved, and
      saving an edited workspace keeps its administrators, unless the
      administrator list was changed in between. */
  lemma CreatorAdministersNewWorkspace(creator: User, name: string, now: nat, isoNow: string)
    requires name != ""
    ensures var d := Open(None, creator.id).(name := name);
      var r := SaveResult(d, None, creator.id, now, isoNow);
      r.Success? && IsWorkspaceAdmin(creator, r.value.ws)
  {
  }

  lemma EditKeepsAdministrators(ws: Workspace, currentUserId: string, u: User, now: nat, isoNow: string)
    requires ws.name != "" && ws.activeGroupIds != Some([])
    ensures var r := SaveResult(Open(Some(ws), currentUserId), Some(ws), currentUserId, now, isoNow);
      r.Success? && (IsWorkspaceAdmin(u, r.value.ws) <==> IsWorkspaceAdmin(u, ws))
  {
  }
}
