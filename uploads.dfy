/** The upload catalogue behind `POST /upload`, `GET /uploads`, `PUT /uploads/:fileNumber` and
    `DELETE /uploads/:id`. The table is a sequence of rows in insertion order; each
    parameterised statement is given its table meaning. */
module Uploads {
  import opened Wrappers
  import opened Tables
  import opened JsStrings
  import opened Assets
  import FileNumber

  /** A row of the `uploads` table. */
  datatype Upload = Upload(
    id: nat, design: string, frontDepth: string, industry: string,
    fileNumber: string, fileUrl1: Option<string>, fileUrl2: Option<string>)

  const DataSubmitted: string := "Data submitted successfully"
  const RecordNotFound: string := "Record not found"
  const DataUpdated: string := "Data updated successfully"
  const RecordDeleted: string := "Record and associated files deleted successfully"

  /** Body of `POST /upload`: the message, `fileUrls` and `uniqueFileNumber`. */
  datatype UploadReply = UploadOk(message: string, file1: Option<string>, file2: Option<string>, uniqueFileNumber: string)

  /** No two rows share an id (the auto-increment primary key). */
  ghost predicate IdsUnique(rows: seq<Upload>) {
    forall i, j | 0 <= i < j < |rows| :: rows[i].id != rows[j].id
  }

  /** Every id is positive and below `bound`, the next auto-increment value. */
  ghost predicate IdsWithin(rows: seq<Upload>, bound: int) {
    forall i | 0 <= i < |rows| :: 1 <= rows[i].id < bound
  }

  /** Query string of `GET /uploads`; "" means the parameter is absent or empty. */
  datatype SearchFilter = SearchFilter(design: string, frontDepth: string, industry: string)

  /** The columns the search may constrain, in the order the route tests them. */
  datatype Column = DesignColumn | FrontDepthColumn | IndustryColumn

  function ColumnName(c: Column): string {
    match c
    case DesignColumn => "design"
    case FrontDepthColumn => "front_depth"
    case IndustryColumn => "industry"
  }

  function ColumnValue(u: Upload, c: Column): string {
    match c
    case DesignColumn => u.design
    case FrontDepthColumn => u.frontDepth
    case IndustryColumn => u.industry
  }

  function FilterValue(f: SearchFilter, c: Column): string {
    match c
    case DesignColumn => f.design
    case FrontDepthColumn => f.frontDepth
    case IndustryColumn => f.industry
  }

  function Rank(c: Column): nat {
    match c
    case DesignColumn => 0
    case FrontDepthColumn => 1
    case IndustryColumn => 2
  }

  /** What a row must satisfy to be returned: equality on every non-empty filter. */
  predicate MatchesFilter(u: Upload, f: SearchFilter) {
    && (f.design == "" || u.design == f.design)
    && (f.frontDepth == "" || u.frontDepth == f.frontDepth)
    && (f.industry == "" || u.industry == f.industry)
  }

  function FilterMatcher(f: SearchFilter): Upload -> bool {
    (u: Upload) => MatchesFilter(u, f)
  }

  const SelectUploads: string := "SELECT * FROM uploads WHERE 1=1"

  /** The text appended for one constrained column. */
  function Condition(c: Column): string {
    " AND " + ColumnName(c) + " = ?"
  }

  function Conditions(cs: seq<Column>): string {
    if cs == [] then "" else Condition(cs[0]) + Conditions(cs[1..])
  }

  /** The columns the route constrains: those whose filter value is non-empty, in the order
      design, front_depth, industry. */
  function ActiveColumns(f: SearchFilter): (cs: seq<Column>)
    ensures forall c: Column :: c in cs <==> FilterValue(f, c) != ""
    ensures forall i, j | 0 <= i < j < |cs| :: Rank(cs[i]) < Rank(cs[j])
  {
    (if f.design != "" then [DesignColumn] else [])
    + (if f.frontDepth != "" then [FrontDepthColumn] else [])
    + (if f.industry != "" then [IndustryColumn] else [])
  }

  /** The parameters bound to the placeholders of `cs`, one per column. */
  function ParamsFor(f: SearchFilter, cs: seq<Column>): (ps: seq<string>)
    ensures |ps| == |cs|
  {
    seq(|cs|, i requires 0 <= i < |cs| => FilterValue(f, cs[i]))
  }

  lemma NoPlaceholderInSelect()
    ensures CountChar(SelectUploads, '?') == 0
  {
    CountCharAbsent(SelectUploads, '?');
  }

  /** Every condition holds one placeholder. */
  lemma PlaceholderOfCondition(c: Column)
    ensures CountChar(Condition(c), '?') == 1
  {
    var head := " AND " + ColumnName(c) + " = ";
    assert '?' !in ColumnName(c);
    CountCharAbsent(head, '?');
    CountCharAppend(head, "?", '?');
    assert head + "?" == Condition(c);
  }

  /** The built conditions hold one placeholder per constrained column. */
  lemma {:induction false} PlaceholdersOfConditions(cs: seq<Column>)
    ensures CountChar(Conditions(cs), '?') == |cs|
  {
    if cs != [] {
      PlaceholdersOfConditions(cs[1..]);
      CountCharAppend(Condition(cs[0]), Conditions(cs[1..]), '?');
      PlaceholderOfCondition(cs[0]);
    }
  }

  /** Appending one condition to the text appends its column to the list. */
  lemma {:induction false} ConditionsSnoc(cs: seq<Column>, c: Column)
    ensures Conditions(cs + [c]) == Conditions(cs) + Condition(c)
  {
    if cs == [] {
      assert [] + [c] == [c];
      assert [c][1..] == [];
    } else {
      assert (cs + [c])[1..] == cs[1..] + [c];
      ConditionsSnoc(cs[1..], c);
    }
  }

  /** Reads the constrained columns back from the text after `SelectUploads`; `None` when the
      text is not a sequence of conditions. This is how the statement is understood below. */
  function ParseConditions(s: string): (r: Option<seq<Column>>)
    decreases |s|
  {
    if s == "" then Some([])
    else if Condition(DesignColumn) <= s then PrependColumn(DesignColumn, ParseConditions(s[|Condition(DesignColumn)|..]))
    else if Condition(FrontDepthColumn) <= s then PrependColumn(FrontDepthColumn, ParseConditions(s[|Condition(FrontDepthColumn)|..]))
    else if Condition(IndustryColumn) <= s then PrependColumn(IndustryColumn, ParseConditions(s[|Condition(IndustryColumn)|..]))
    else None
  }

  function PrependColumn(c: Column, r: Option<seq<Column>>): Option<seq<Column>> {
    match r
    case None => None
    case Some(cs) => Some([c] + cs)
  }

  /** Parsing the conditions the builder wrote gives back the columns it constrained. */
  lemma {:induction false} ParseConditionsOfConditions(cs: seq<Column>)
    ensures ParseConditions(Conditions(cs)) == Some(cs)
  {
    if cs != [] {
      var s := Conditions(cs);
      var rest := Conditions(cs[1..]);
      assert s == Condition(cs[0]) + rest;
      ParseConditionsOfConditions(cs[1..]);
      assert cs == [cs[0]] + cs[1..];
      match cs[0]
      case DesignColumn =>
        assert s[|Condition(DesignColumn)|..] == rest;
      case FrontDepthColumn =>
        assert !(Condition(DesignColumn) <= s) by { assert s[5] == 'f'; }
        assert s[|Condition(FrontDepthColumn)|..] == rest;
      case IndustryColumn =>
        assert !(Condition(DesignColumn) <= s) by { assert s[5] == 'i'; }
        assert !(Condition(FrontDepthColumn) <= s) by { assert s[5] == 'i'; }
        assert s[|Condition(IndustryColumn)|..] == rest;
    }
  }

  /** One step of the builder keeps the text and the parameters in step with the columns. */
  lemma AddCondition(query: string, params: seq<string>, cs: seq<Column>, f: SearchFilter, c: Column)
    requires query == SelectUploads + Conditions(cs) && params == ParamsFor(f, cs)
    ensures query + Condition(c) == SelectUploads + Conditions(cs + [c])
    ensures params + [FilterValue(f, c)] == ParamsFor(f, cs + [c])
  {
    ConditionsSnoc(cs, c);
    Reassociate(SelectUploads, Conditions(cs), Condition(c));
  }

  /** Concatenation is associative. Kept as a lemma of its own so that the step above does not
      reason about sequence extensionality alongside the builder's text. */
  lemma Reassociate(a: string, b: string, c: string)
    ensures (a + b) + c == a + (b + c)
  {
  }

  /** The whole statement holds one placeholder per constrained column. */
  lemma PlaceholdersOfQuery(cs: seq<Column>)
    ensures CountChar(SelectUploads + Conditions(cs), '?') == |cs|
  {
    PlaceholdersOfConditions(cs);
    CountCharAppend(SelectUploads, Conditions(cs), '?');
    NoPlaceholderInSelect();
  }

  /** A row satisfies `col_1 = ? AND ... AND col_n = ?` under `params`. */
  function ConditionsMatcher(cs: seq<Column>, params: seq<string>): Upload -> bool
    requires |cs| == |params|
  {
    (u: Upload) => forall i | 0 <= i < |cs| :: ColumnValue(u, cs[i]) == params[i]
  }

  /** The meaning of running the statement `query` with `params` on `rows`: `None` (a database
      error) unless it is the search statement with one parameter per placeholder. */
  function RunSearchStatement(rows: seq<Upload>, query: string, params: seq<string>): Option<seq<Upload>> {
    if !(SelectUploads <= query) then None
    else match ParseConditions(query[|SelectUploads|..])
      case None => None
      case Some(cs) =>
        if |cs| != |params| then None else Some(Where(rows, ConditionsMatcher(cs, params)))
  }

  /** The built conditions select exactly the rows that match the filter. */
  lemma ActiveConditionsMeanFilter(f: SearchFilter, u: Upload)
    ensures ConditionsMatcher(ActiveColumns(f), ParamsFor(f, ActiveColumns(f)))(u) == MatchesFilter(u, f)
  {
    var cs := ActiveColumns(f);
    var ps := ParamsFor(f, cs);
    if MatchesFilter(u, f) {
      forall i | 0 <= i < |cs| ensures ColumnValue(u, cs[i]) == ps[i] {
        assert FilterValue(f, cs[i]) != "";
      }
    } else {
      var c: Column :| FilterValue(f, c) != "" && ColumnValue(u, c) != FilterValue(f, c);
      var i :| 0 <= i < |cs| && cs[i] == c;
      assert ColumnValue(u, cs[i]) != ps[i];
    }
  }

  /** `x || y` for two strings. */
  function OrElse(x: string, y: string): string {
    if x != "" then x else y
  }

  /** `x || y` for two nullable strings. */
  function OrElseUrl(x: Option<string>, y: Option<string>): Option<string> {
    if IsTruthy(x) then x else y
  }

  /** Fields of `PUT /uploads/:fileNumber`: "" or `None` means not supplied; a file is the name
      the new part was saved under. */
  datatype EditRequest = EditRequest(
    design: string, frontDepth: string, industry: string, file1: Option<string>, file2: Option<string>)

  const NoChanges: EditRequest := EditRequest("", "", "", None, None)

  /** The values the update writes, which the route also returns as `updatedFields`. */
  datatype FinalFields = FinalFields(
    design: string, frontDepth: string, industry: string, fileUrl1: Option<string>, fileUrl2: Option<string>)

  function FieldsOf(u: Upload): FinalFields {
    FinalFields(u.design, u.frontDepth, u.industry, u.fileUrl1, u.fileUrl2)
  }

  /** Each field takes the supplied value when it is truthy and keeps the stored one otherwise;
      a new file replaces the stored URL. */
  function Merge(current: Upload, req: EditRequest): (r: FinalFields)
    ensures req.design != "" ==> r.design == req.design
    ensures req.design == "" ==> r.design == current.design
    ensures req.frontDepth != "" ==> r.frontDepth == req.frontDepth
    ensures req.frontDepth == "" ==> r.frontDepth == current.frontDepth
    ensures req.industry != "" ==> r.industry == req.industry
    ensures req.industry == "" ==> r.industry == current.industry
    ensures req.file1.Some? ==> r.fileUrl1 == Some(PublicBase + req.file1.value)
    ensures req.file1.None? ==> r.fileUrl1 == current.fileUrl1
    ensures req.file2.Some? ==> r.fileUrl2 == Some(PublicBase + req.file2.value)
    ensures req.file2.None? ==> r.fileUrl2 == current.fileUrl2
  {
    FinalFields(
      OrElse(req.design, current.design),
      OrElse(req.frontDepth, current.frontDepth),
      OrElse(req.industry, current.industry),
      OrElseUrl(PublicUrl(req.file1), current.fileUrl1),
      OrElseUrl(PublicUrl(req.file2), current.fileUrl2))
  }

  /** A row with the five updatable columns set to `fields`. */
  function Assign(u: Upload, fields: FinalFields): (r: Upload)
    ensures r.id == u.id && r.fileNumber == u.fileNumber && FieldsOf(r) == fields
  {
    u.(design := fields.design, frontDepth := fields.frontDepth, industry := fields.industry,
       fileUrl1 := fields.fileUrl1, fileUrl2 := fields.fileUrl2)
  }

  /** An edit that supplies nothing keeps every stored value. */
  lemma MergeNothing(current: Upload)
    ensures Assign(current, Merge(current, NoChanges)) == current
  {
  }

  /** Applying the same edit twice stores what applying it once stores. */
  lemma MergeIdempotent(current: Upload, req: EditRequest)
    ensures Merge(Assign(current, Merge(current, req)), req) == Merge(current, req)
  {
  }

  /** `UPDATE uploads SET ... WHERE file_number = ?`: every row with that file number takes
      `fields`; every other row, and every id and file number, stays as it was. */
  function ApplyUpdate(rows: seq<Upload>, fileNumber: string, fields: FinalFields): (r: seq<Upload>)
    ensures |r| == |rows|
    ensures forall i | 0 <= i < |rows| :: r[i].id == rows[i].id && r[i].fileNumber == rows[i].fileNumber
    ensures forall i | 0 <= i < |rows| && rows[i].fileNumber != fileNumber :: r[i] == rows[i]
    ensures forall i | 0 <= i < |rows| && rows[i].fileNumber == fileNumber :: FieldsOf(r[i]) == fields
  {
    seq(|rows|, i requires 0 <= i < |rows| =>
      if rows[i].fileNumber == fileNumber then Assign(rows[i], fields) else rows[i])
  }

  predicate HasFileNumber(rows: seq<Upload>, fileNumber: string) {
    exists i | 0 <= i < |rows| :: rows[i].fileNumber == fileNumber
  }

  function FileNumberIs(fileNumber: string): Upload -> bool {
    (u: Upload) => u.fileNumber == fileNumber
  }

  /** Row `k` is the first row with this file number, the one the route reads. */
  predicate IsFirstWithFileNumber(rows: seq<Upload>, fileNumber: string, k: int) {
    0 <= k < |rows| && rows[k].fileNumber == fileNumber
    && forall j | 0 <= j < k :: rows[j].fileNumber != fileNumber
  }

  /** The SELECT by file number returns nothing exactly when no row has that file number. */
  lemma NoRowSelected(rows: seq<Upload>, fileNumber: string)
    ensures Where(rows, FileNumberIs(fileNumber)) == [] <==> !HasFileNumber(rows, fileNumber)
  {
    var r := Where(rows, FileNumberIs(fileNumber));
    if r != [] {
      assert r[0] in r;
    }
    forall i | 0 <= i < |rows| && r == [] ensures rows[i].fileNumber != fileNumber {
      var u := rows[i];
      assert FileNumberIs(fileNumber)(u) ==> u in r;
    }
  }

  /** The first row the SELECT returns is the first row with that file number. */
  lemma FirstRowSelected(rows: seq<Upload>, fileNumber: string) returns (k: int)
    requires Where(rows, FileNumberIs(fileNumber)) != []
    ensures IsFirstWithFileNumber(rows, fileNumber, k)
    ensures rows[k] == Where(rows, FileNumberIs(fileNumber))[0]
  {
    WhereFirst(rows, FileNumberIs(fileNumber));
    k :| 0 <= k < |rows| && rows[k] == Where(rows, FileNumberIs(fileNumber))[0] && FileNumberIs(fileNumber)(rows[k])
         && forall j :: 0 <= j < k ==> !FileNumberIs(fileNumber)(rows[j]);
  }

  ghost predicate FileNumbersUnique(rows: seq<Upload>) {
    forall i, j | 0 <= i < j < |rows| :: rows[i].fileNumber != rows[j].fileNumber
  }

  /** When file numbers are unique, an edit that supplies nothing leaves the table unchanged. */
  lemma EmptyEditLeavesTable(rows: seq<Upload>, fileNumber: string, k: int)
    requires FileNumbersUnique(rows) && IsFirstWithFileNumber(rows, fileNumber, k)
    ensures ApplyUpdate(rows, fileNumber, Merge(rows[k], NoChanges)) == rows
  {
    var r := ApplyUpdate(rows, fileNumber, Merge(rows[k], NoChanges));
    forall i | 0 <= i < |rows| ensures r[i] == rows[i] {
      if rows[i].fileNumber == fileNumber {
        assert i == k;
      }
    }
  }

  /** File numbers are never checked for uniqueness, and the update writes the values merged
      from the first match into every row with that number: then even an empty edit changes a
      row. */
  lemma EmptyEditWithSharedFileNumber()
    ensures var a := Upload(1, "1 side open", "10 X 12", "Retail", "AB1234C", None, None);
            var b := Upload(2, "2 side open", "8 X 8", "Food", "AB1234C", None, None);
            ApplyUpdate([a, b], "AB1234C", Merge(a, NoChanges))[1] != b
  {
  }

  /** Body of `PUT /uploads/:fileNumber`. */
  datatype EditReply = EditError(error: string) | EditOk(message: string, updatedFields: FinalFields)

  /** Body of `DELETE /uploads/:id`. */
  datatype DeleteReply = DeleteError(error: string) | DeleteOk(message: string)

  predicate HasId(rows: seq<Upload>, id: int) {
    exists i | 0 <= i < |rows| :: rows[i].id == id
  }

  function IdIs(id: int): Upload -> bool {
    (u: Upload) => u.id == id
  }

  function IdIsNot(id: int): Upload -> bool {
    (u: Upload) => u.id != id
  }

  /** The SELECT by id returns nothing exactly when no row has that id. */
  lemma NoRowWithId(rows: seq<Upload>, id: int)
    ensures Where(rows, IdIs(id)) == [] <==> !HasId(rows, id)
  {
    var r := Where(rows, IdIs(id));
    if r != [] {
      assert r[0] in r;
    }
    forall i | 0 <= i < |rows| && r == [] ensures rows[i].id != id {
      var u := rows[i];
      assert IdIs(id)(u) ==> u in r;
    }
  }

  lemma RowWithId(rows: seq<Upload>, id: int) returns (k: int)
    requires Where(rows, IdIs(id)) != []
    ensures 0 <= k < |rows| && rows[k] == Where(rows, IdIs(id))[0] && rows[k].id == id
  {
    var record := Where(rows, IdIs(id))[0];
    assert record in rows;
    k :| 0 <= k < |rows| && rows[k] == record;
  }

  /** `DELETE FROM uploads WHERE id = ?`. */
  function RemoveId(rows: seq<Upload>, id: int): (r: seq<Upload>)
    ensures |r| <= |rows|
    ensures forall u :: u in r <==> u in rows && u.id != id
  {
    Where(rows, IdIsNot(id))
  }

  /** With unique ids, deleting the id of row `k` removes that row and keeps all others, in
      order. */
  lemma RemoveIdRemovesOneRow(rows: seq<Upload>, k: int)
    requires IdsUnique(rows) && 0 <= k < |rows|
    ensures RemoveId(rows, rows[k].id) == rows[..k] + rows[k + 1..]
  {
    var p := IdIsNot(rows[k].id);
    forall j | 0 <= j < |rows| && j != k ensures p(rows[j]) {
      if j < k {
        assert rows[j].id != rows[k].id;
      } else {
        assert rows[k].id != rows[j].id;
      }
    }
    WhereAllButOne(rows, p, k);
  }

  /** Removing a row keeps ids unique and within their bounds. */
  lemma DropKeepsIds(rows: seq<Upload>, k: int, bound: int)
    requires IdsUnique(rows) && 0 <= k < |rows|
    requires IdsWithin(rows, bound)
    ensures IdsUnique(rows[..k] + rows[k + 1..]) && IdsWithin(rows[..k] + rows[k + 1..], bound)
  {
    var r := rows[..k] + rows[k + 1..];
    assert forall i | 0 <= i < |r| :: r[i] == rows[if i < k then i else i + 1];
  }

  /** `getFilePath(url)` kept only when that path exists. */
  function IfExists(path: Option<string>, existing: set<string>): seq<string> {
    if path.Some? && path.value in existing then [path.value] else []
  }

  /** The paths the delete route queues for unlinking: the row's first and then its second file,
      each only when its URL is truthy and the derived path exists. */
  function FilesToRemove(serverDir: string, record: Upload, existing: set<string>): (paths: seq<string>)
    ensures |paths| <= 2
    ensures |paths| == 2 ==>
      LocalPath(serverDir, record.fileUrl1) == Some(paths[0]) && LocalPath(serverDir, record.fileUrl2) == Some(paths[1])
    ensures |paths| == 1 ==>
      LocalPath(serverDir, record.fileUrl1) == Some(paths[0]) || LocalPath(serverDir, record.fileUrl2) == Some(paths[0])
  {
    IfExists(LocalPath(serverDir, record.fileUrl1), existing)
    + IfExists(LocalPath(serverDir, record.fileUrl2), existing)
  }

  /** A path is queued exactly when it exists and is derived from one of the row's URLs; it is
      then `uploads/` below the server directory followed by the URL's last segment. */
  lemma FilesToRemoveMeaning(serverDir: string, record: Upload, existing: set<string>)
    ensures forall p :: p in FilesToRemove(serverDir, record, existing) <==>
      p in existing && (LocalPath(serverDir, record.fileUrl1) == Some(p) || LocalPath(serverDir, record.fileUrl2) == Some(p))
    ensures forall p | p in FilesToRemove(serverDir, record, existing) ::
      exists url | url in [record.fileUrl1, record.fileUrl2] && IsTruthy(url) :: p == UploadsDir(serverDir) + Basename(url.value)
  {
  }

  /** Every queued path is non-empty, so the unlink loop skips none. */
  lemma NonEmptyPaths(serverDir: string, record: Upload, existing: set<string>)
    ensures forall p | p in FilesToRemove(serverDir, record, existing) :: p != ""
  {
    forall p | p in FilesToRemove(serverDir, record, existing) ensures p != "" {
      assert LocalPath(serverDir, record.fileUrl1) == Some(p) || LocalPath(serverDir, record.fileUrl2) == Some(p);
    }
  }

  /** The number MySQL compares the integer `id` column with when the parameter is a string:
      the value of its leading decimal digits, 0 when it has none. */
  function SqlLeadingNumber(s: string): (n: nat)
    ensures s == "" || !('0' <= s[0] <= '9') ==> n == 0
  {
    DigitsValue(LeadingDigits(s))
  }

  function LeadingDigits(s: string): string {
    if s != "" && '0' <= s[0] <= '9' then [s[0]] + LeadingDigits(s[1..]) else ""
  }

  function DigitsValue(ds: string): nat
    decreases |ds|
  {
    if ds == "" then 0
    else
      var d := ds[|ds| - 1] as int - '0' as int;
      DigitsValue(ds[..|ds| - 1]) * 10 + (if 0 <= d then d else 0)
  }

  /** `String(n)` for a natural number: its decimal digits. */
  function Decimal(n: nat): (s: string)
    ensures s != [] && forall i | 0 <= i < |s| :: '0' <= s[i] <= '9'
  {
    var last := ['0' + (n % 10) as char];
    if n < 10 then last else Decimal(n / 10) + last
  }

  lemma {:induction false} LeadingDigitsOfDigits(s: string)
    requires forall i | 0 <= i < |s| :: '0' <= s[i] <= '9'
    ensures LeadingDigits(s) == s
  {
    if s != "" {
      LeadingDigitsOfDigits(s[1..]);
    }
  }

  lemma {:induction false} DigitsValueOfDecimal(n: nat)
    ensures DigitsValue(Decimal(n)) == n
  {
    var s := Decimal(n);
    var last := ['0' + (n % 10) as char];
    if n >= 10 {
      DigitsValueOfDecimal(n / 10);
      assert s[..|s| - 1] == Decimal(n / 10);
    }
  }

  /** A path segment that is the decimal form of an id selects that id. */
  lemma DecimalIdSelectsId(n: nat)
    ensures SqlLeadingNumber(Decimal(n)) == n
  {
    LeadingDigitsOfDigits(Decimal(n));
    DigitsValueOfDecimal(n);
  }

  /** The admin panel deletes by `file_number` while the route looks rows up by `id`: a file
      number starts with a letter, so it reads as id 0, which no row has. */
  lemma DeleteByFileNumberFindsNothing(rows: seq<Upload>, fileNumber: string)
    requires forall i | 0 <= i < |rows| :: 1 <= rows[i].id
    requires FileNumber.IsFileNumber(fileNumber)
    ensures SqlLeadingNumber(fileNumber) == 0
    ensures !HasId(rows, SqlLeadingNumber(fileNumber))
  {
  }

  /** The `uploads` table with its auto-increment counter; `serverDir` is the server's own
      directory (`__dirname`). */
  class UploadTable {
    var rows: seq<Upload>
    var nextId: nat
    const serverDir: string

    /** Ids are positive, below the counter and unique. */
    ghost predicate Valid()
      reads this
    {
      && 1 <= nextId
      && IdsUnique(rows)
      && IdsWithin(rows, nextId)
    }

    constructor (dir: string)
      ensures Valid() && rows == [] && nextId == 1 && serverDir == dir
    {
      rows := [];
      nextId := 1;
      serverDir := dir;
    }

    /** `POST /upload`: inserts exactly one row, carrying a newly generated file number and the
        public URL of each file that was sent (`null` for a missing one); existing rows are
        unchanged. */
    method AddUpload(design: string, frontDepth: string, industry: string,
                     file1: Option<string>, file2: Option<string>, draws: seq<real>)
      returns (status: nat, reply: UploadReply)
      requires Valid()
      requires FileNumber.IsDrawSequence(draws)
      modifies this
      ensures Valid()
      ensures status == 200
      ensures FileNumber.IsFileNumber(reply.uniqueFileNumber)
      ensures reply == UploadOk(DataSubmitted, PublicUrl(file1), PublicUrl(file2), FileNumber.CodeFromDraws(draws))
      ensures rows == old(rows) + [Upload(old(nextId), design, frontDepth, industry,
                                          reply.uniqueFileNumber, PublicUrl(file1), PublicUrl(file2))]
      ensures nextId == old(nextId) + 1
    {
      var uniqueFileNumber := FileNumber.GenerateUniqueFileNumber(draws);
      var fileUrl1 := if file1.Some? then Some(PublicBase + file1.value) else None;
      var fileUrl2 := if file2.Some? then Some(PublicBase + file2.value) else None;
      rows := rows + [Upload(nextId, design, frontDepth, industry, uniqueFileNumber, fileUrl1, fileUrl2)];
      nextId := nextId + 1;
      return 200, UploadOk(DataSubmitted, fileUrl1, fileUrl2, uniqueFileNumber);
    }

    /** The query builder of `GET /uploads`: one `AND col = ?` per non-empty filter, in the order
        design, front_depth, industry, with one parameter per placeholder. */
    static method BuildSearchQuery(f: SearchFilter) returns (query: string, params: seq<string>)
      ensures query == SelectUploads + Conditions(ActiveColumns(f))
      ensures params == ParamsFor(f, ActiveColumns(f))
      ensures CountChar(query, '?') == |params|
    {
      query := SelectUploads;
      params := [];
      ghost var cs: seq<Column> := [];
      if f.design != "" {
        AddCondition(query, params, cs, f, DesignColumn);
        query := query + Condition(DesignColumn);
        params := params + [f.design];
        cs := cs + [DesignColumn];
      }
      if f.frontDepth != "" {
        AddCondition(query, params, cs, f, FrontDepthColumn);
        query := query + Condition(FrontDepthColumn);
        params := params + [f.frontDepth];
        cs := cs + [FrontDepthColumn];
      }
      if f.industry != "" {
        AddCondition(query, params, cs, f, IndustryColumn);
        query := query + Condition(IndustryColumn);
        params := params + [f.industry];
        cs := cs + [IndustryColumn];
      }
      assert cs == ActiveColumns(f);
      PlaceholdersOfQuery(cs);
    }

    /** `GET /uploads`: exactly the rows equal to every non-empty filter, in table order; with
        no filter, the whole table. */
    method Search(f: SearchFilter) returns (status: nat, results: seq<Upload>)
      requires Valid()
      ensures status == 200
      ensures results == Where(rows, FilterMatcher(f))
      ensures forall u :: u in results <==> u in rows && MatchesFilter(u, f)
      ensures f == SearchFilter("", "", "") ==> results == rows
    {
      var query, params := BuildSearchQuery(f);
      var cs := ActiveColumns(f);
      assert query[|SelectUploads|..] == Conditions(cs);
      ParseConditionsOfConditions(cs);
      var outcome := RunSearchStatement(rows, query, params);
      assert outcome == Some(Where(rows, ConditionsMatcher(cs, params)));
      forall u | u in rows ensures ConditionsMatcher(cs, params)(u) == FilterMatcher(f)(u) {
        ActiveConditionsMeanFilter(f, u);
      }
      WhereSame(rows, ConditionsMatcher(cs, params), FilterMatcher(f));
      results := outcome.value;
      status := 200;
      if f == SearchFilter("", "", "") {
        WhereAll(rows, FilterMatcher(f));
      }
    }

    /** `PUT /uploads/:fileNumber`: an unknown file number answers 404 and changes nothing;
        otherwise the values merged from the first matching row are written to every row with
        that file number and returned as `updatedFields`. */
    method Edit(fileNumber: string, req: EditRequest) returns (status: nat, reply: EditReply)
      requires Valid()
      modifies this
      ensures Valid() && nextId == old(nextId)
      ensures !HasFileNumber(old(rows), fileNumber) ==>
        status == 404 && reply == EditError(RecordNotFound) && rows == old(rows)
      ensures HasFileNumber(old(rows), fileNumber) ==>
        exists k :: IsFirstWithFileNumber(old(rows), fileNumber, k)
          && status == 200
          && reply == EditOk(DataUpdated, Merge(old(rows)[k], req))
          && rows == ApplyUpdate(old(rows), fileNumber, Merge(old(rows)[k], req))
    {
      var fileUrl1 := if req.file1.Some? then Some(PublicBase + req.file1.value) else None;
      var fileUrl2 := if req.file2.Some? then Some(PublicBase + req.file2.value) else None;
      var existingRecords := Where(rows, FileNumberIs(fileNumber));
      if |existingRecords| == 0 {
        NoRowSelected(rows, fileNumber);
        return 404, EditError(RecordNotFound);
      }
      ghost var k := FirstRowSelected(rows, fileNumber);
      var currentRecord := existingRecords[0];
      var finalFields := FinalFields(
        OrElse(req.design, currentRecord.design),
        OrElse(req.frontDepth, currentRecord.frontDepth),
        OrElse(req.industry, currentRecord.industry),
        OrElseUrl(fileUrl1, currentRecord.fileUrl1),
        OrElseUrl(fileUrl2, currentRecord.fileUrl2));
      assert finalFields == Merge(currentRecord, req);
      rows := ApplyUpdate(rows, fileNumber, finalFields);
      return 200, EditOk(DataUpdated, finalFields);
    }

    /** The paths `DELETE /uploads/:id` pushes for unlinking, first file then second. */
    static method QueueFiles(serverDir: string, record: Upload, existing: set<string>) returns (deleteFiles: seq<string>)
      ensures deleteFiles == FilesToRemove(serverDir, record, existing)
    {
      deleteFiles := [];
      var file1Path := LocalPath(serverDir, record.fileUrl1);
      var file2Path := LocalPath(serverDir, record.fileUrl2);
      if file1Path.Some? && file1Path.value in existing {
        deleteFiles := deleteFiles + [file1Path.value];
      }
      if file2Path.Some? && file2Path.value in existing {
        deleteFiles := deleteFiles + [file2Path.value];
      }
    }

    /** `DELETE /uploads/:id`, the path segment compared with the integer id as MySQL does: an
        unknown id answers 404, removes no row and touches no file;
        otherwise unlink is attempted, best effort, on each referenced file whose derived path
        exists, and the row is deleted whatever unlink does. `unlinked` lists the attempts. */
    method Delete(idParam: string, existing: set<string>) returns (status: nat, reply: DeleteReply, unlinked: seq<string>)
      requires Valid()
      modifies this
      ensures Valid() && nextId == old(nextId)
      ensures var id := SqlLeadingNumber(idParam);
        !HasId(old(rows), id) ==>
        status == 404 && reply == DeleteError(RecordNotFound) && unlinked == [] && rows == old(rows)
      ensures var id := SqlLeadingNumber(idParam);
        HasId(old(rows), id) ==>
        exists k :: 0 <= k < |old(rows)| && old(rows)[k].id == id
          && status == 200 && reply == DeleteOk(RecordDeleted)
          && unlinked == FilesToRemove(serverDir, old(rows)[k], existing)
          && rows == old(rows)[..k] + old(rows)[k + 1..]
    {
      unlinked := [];
      var id := SqlLeadingNumber(idParam);
      var results := Where(rows, IdIs(id));
      if |results| == 0 {
        NoRowWithId(rows, id);
        return 404, DeleteError(RecordNotFound), unlinked;
      }
      var record := results[0];
      ghost var k := RowWithId(rows, id);
      var deleteFiles := QueueFiles(serverDir, record, existing);
      NonEmptyPaths(serverDir, record, existing);
      for i := 0 to |deleteFiles|
        invariant unlinked == deleteFiles[..i]
      {
        if deleteFiles[i] != "" {
          unlinked := unlinked + [deleteFiles[i]];
        }
      }
      assert deleteFiles[..|deleteFiles|] == deleteFiles;
      RemoveIdRemovesOneRow(rows, k);
      DropKeepsIds(rows, k, nextId);
      rows := RemoveId(rows, id);
      status, reply := 200, DeleteOk(RecordDeleted);
    }
  }
}
