/** Records and enumerations of the editor (types.ts), plus the dynamic-field
    view of a table row: reading and writing `row[field]` by name. */
module Types {

  datatype Option<T> = None | Some(value: T) {
    function GetOr(default: T): T {
      match this
      case Some(v) => v
      case None => default
    }
  }

  datatype Result<T, E> = Success(value: T) | Failure(error: E)

  /** System role. Only ADMIN and LEADER are ever compared against. */
  datatype Role = Member | Leader | Admin

  /** Row lifecycle state. `status` is always writable, so a row can hold any
      string there; `Other` carries such a name. */
  datatype Status = Draft | Pending | Approved | Rejected | Other(name: string)

  datatype AccessLevel = NoAccess | Read | Write

  datatype FieldType = Text | Number | Select | Date

  /** A dynamic cell value. JavaScript numbers are modelled as integers. */
  datatype Value = Undefined | Null | Str(s: string) | Num(n: int)

  datatype User = User(id: string, name: string, role: Role, groupId: string, managerId: Option<string>)

  datatype RoleGroup = RoleGroup(id: string, name: string, color: string, description: Option<string>)

  /** `ColumnPermission`; `caption` is its `label`. */
  datatype Column = Column(
    field: string,
    caption: string,
    fieldType: FieldType,
    options: Option<seq<string>>,
    isSensitive: Option<bool>,
    groupPermissions: Option<map<string, AccessLevel>>)

  datatype Workspace = Workspace(
    id: string,
    name: string,
    icon: string,
    columns: seq<Column>,
    activeGroupIds: Option<seq<string>>,
    adminIds: Option<seq<string>>)

  /** A table row: the fixed keys of `TableRow` and the schema-defined cells. */
  datatype Row = Row(
    id: string,
    workspaceId: string,
    status: Status,
    ownerId: string,
    version: int,
    updatedAt: string,
    fields: map<string, Value>)

  datatype AuditLog = AuditLog(
    id: string,
    rowId: string,
    workspaceId: string,
    operatorName: string,
    field: string,
    oldValue: string,
    newValue: string,
    timestamp: string)

  /** One proposed cell write `{rowId, field, value}`. */
  datatype Update = Update(rowId: string, field: string, value: Value)

  function StatusName(s: Status): string {
    match s
    case Draft => "Draft"
    case Pending => "Pending"
    case Approved => "Approved"
    case Rejected => "Rejected"
    case Other(name) => name
  }

  /** The status held after writing the string `s` into `status`. */
  function ParseStatus(s: string): (st: Status)
    ensures StatusName(st) == s
  {
    if s == "Draft" then Draft
    else if s == "Pending" then Pending
    else if s == "Approved" then Approved
    else if s == "Rejected" then Rejected
    else Other(s)
  }

  /** The source compares statuses as strings (`row.status === DataStatus.DRAFT`). */
  predicate IsDraft(s: Status) { StatusName(s) == "Draft" }
  predicate IsClosed(s: Status) { StatusName(s) == "Approved" || StatusName(s) == "Rejected" }

  function DigitChar(d: nat): char
    requires d < 10
  {
    "0123456789"[d]
  }

  function NatToString(n: nat): (s: string)
    ensures |s| >= 1
    decreases n
  {
    if n < 10 then [DigitChar(n)] else NatToString(n / 10) + [DigitChar(n % 10)]
  }

  /** `String(v)` of JavaScript. */
  function Stringify(v: Value): string {
    match v
    case Undefined => "undefined"
    case Null => "null"
    case Str(s) => s
    case Num(n) => if n < 0 then "-" + NatToString(-n) else NatToString(n)
  }

  /** `row[f]`. */
  function Get(r: Row, f: string): Value {
    if f == "id" then Str(r.id)
    else if f == "workspaceId" then Str(r.workspaceId)
    else if f == "status" then Str(StatusName(r.status))
    else if f == "ownerId" then Str(r.ownerId)
    else if f == "version" then Num(r.version)
    else if f == "updatedAt" then Str(r.updatedAt)
    else if f in r.fields then r.fields[f]
    else Undefined
  }

  predicate IsReservedKey(f: string) {
    f in ["id", "workspaceId", "status", "ownerId", "version", "updatedAt"]
  }

  /** `row[f] = v`. Fixed keys keep their string form; `version` takes a number. */
  function Set(r: Row, f: string, v: Value): Row {
    if f == "id" then r.(id := Stringify(v))
    else if f == "workspaceId" then r.(workspaceId := Stringify(v))
    else if f == "status" then r.(status := ParseStatus(Stringify(v)))
    else if f == "ownerId" then r.(ownerId := Stringify(v))
    else if f == "version" then (if v.Num? then r.(version := v.n) else r)
    else if f == "updatedAt" then r.(updatedAt := Stringify(v))
    else r.(fields := r.fields[f := v])
  }

  /** Reading back what was written: the written key reads as `v` (as a
      string, for the fixed keys; `version` only takes a number). */
  lemma SetReadsBack(r: Row, f: string, v: Value)
    ensures f != "version" || v.Num? ==> Stringify(Get(Set(r, f, v), f)) == Stringify(v)
    ensures !IsReservedKey(f) ==> Get(Set(r, f, v), f) == v
  {
    if f == "status" {
      assert StatusName(Set(r, f, v).status) == Stringify(v);
    }
  }

  /** Writing one key leaves every other key as it was. */
  lemma SetKeepsOthers(r: Row, f: string, v: Value, g: string)
    requires g != f
    ensures Get(Set(r, f, v), g) == Get(r, g)
  {
    var r' := Set(r, f, v);
    if !IsReservedKey(f) {
      assert r' == r.(fields := r.fields[f := v]);
    } else if f == "id" {
      assert r' == r.(id := Stringify(v));
    } else if f == "workspaceId" {
      assert r' == r.(workspaceId := Stringify(v));
    } else if f == "status" {
      assert r' == r.(status := ParseStatus(Stringify(v)));
    } else if f == "ownerId" {
      assert r' == r.(ownerId := Stringify(v));
    } else if f == "updatedAt" {
      assert r' == r.(updatedAt := Stringify(v));
    } else {
      assert r'.fields == r.fields && r'.id == r.id && r'.status == r.status;
    }
  }
}
