/**
 * The document catalogue of the Rust backend. Two parts are modelled: the
 * text of the listing query, built from optional filters with numbered
 * placeholders, and the table as a store of records keyed by file path and
 * by id, with the check a record sent to the save command must pass
 * first. SQL evaluation, connections and pragmas are not part of it; each
 * call opens a fresh connection, which matters only for the id an upsert
 * reports.
 */
module Database {
  import opened Wrappers
  import opened Strings
  import opened Seqs

  // ---------------------------------------------------------------------------
  // The listing query

  /** The fixed head of the listing query, line breaks and indentation
      included. */
  const SelectHead: string :=
    "SELECT id, title, file_path, file_name, file_size, page_count,\n                archive_serial, date_created, correspondent, document_type,\n                storage_path, tags, notes, created_at, updated_at\n         FROM documents WHERE 1=1"

  const SearchClause: string := " AND (title LIKE ?1 OR file_name LIKE ?1 OR tags LIKE ?1)"
  const OrderClause: string := " ORDER BY updated_at DESC"

  /** A query text and the values bound to its placeholders, in order. */
  datatype Query = Query(sql: string, params: seq<string>)

  /** The search filter: its clause always uses placeholder 1 and binds the
      term wrapped in `%` wildcards. */
  function AddSearch(q: Query, search: Option<string>): (r: Query)
    ensures search.None? ==> r == q
    ensures search.Some? ==> r.params == q.params + ["%" + search.value + "%"]
  {
    if search.None? then q
    else Query(q.sql + SearchClause, q.params + ["%" + search.value + "%"])
  }

  /** The type filter: its placeholder number is one more than the number
      of values bound so far. */
  function AddType(q: Query, documentType: Option<string>): (r: Query)
    ensures documentType.None? ==> r == q
    ensures documentType.Some? ==> r.params == q.params + [documentType.value]
  {
    if documentType.None? then q
    else Query(q.sql + " AND document_type = ?" + NatToString(|q.params| + 1), q.params + [documentType.value])
  }

  /** `get_documents`' query: head, filters, order, then LIMIT and OFFSET
      each exactly when given (OFFSET even without LIMIT). */
  function DocumentsQuery(search: Option<string>, documentType: Option<string>, limit: Option<int>, offset: Option<int>): (q: Query)
  {
    BuildQuery(SelectHead, search, documentType, limit, offset)
  }

  /** The builder behind `DocumentsQuery`, for any fixed head. */
  function BuildQuery(head: string, search: Option<string>, documentType: Option<string>, limit: Option<int>, offset: Option<int>): (q: Query)
  {
    var filtered := Filtered(head, search, documentType);
    Query(Paginate(filtered.sql + OrderClause, limit, offset), filtered.params)
  }

  /** The head with the filter clauses given, and their values. */
  function Filtered(head: string, search: Option<string>, documentType: Option<string>): (q: Query)
  {
    AddType(AddSearch(Query(head, []), search), documentType)
  }

  /** LIMIT and then OFFSET, each appended exactly when given. */
  function Paginate(sql: string, limit: Option<int>, offset: Option<int>): (r: string)
  {
    var limited := if limit.Some? then sql + LimitClause(limit.value) else sql;
    if offset.Some? then limited + OffsetClause(offset.value) else limited
  }

  function LimitClause(n: int): string { " LIMIT " + IntToString(n) }
  function OffsetClause(n: int): string { " OFFSET " + IntToString(n) }

  function CountSome(a: Option<string>, b: Option<string>): nat {
    (if a.Some? then 1 else 0) + (if b.Some? then 1 else 0)
  }

  /** Every query starts with the fixed head, binds one value per filter
      given, and the type placeholder names the type's own value. */
  lemma QueryShape(search: Option<string>, documentType: Option<string>, limit: Option<int>, offset: Option<int>)
    ensures var q := DocumentsQuery(search, documentType, limit, offset);
      && StartsWith(q.sql, SelectHead)
      && |q.params| == CountSome(search, documentType)
      && (search.Some? ==> q.params[0] == "%" + search.value + "%" && Contains(q.sql, SearchClause))
      && (documentType.Some? ==>
            var n := CountSome(search, documentType);
            q.params[n - 1] == documentType.value
            && Contains(q.sql, " AND document_type = ?" + NatToString(n)))
  {
    BuildShape(SelectHead, search, documentType, limit, offset);
  }

  lemma BuildShape(head: string, search: Option<string>, documentType: Option<string>, limit: Option<int>, offset: Option<int>)
    ensures var q := BuildQuery(head, search, documentType, limit, offset);
      && StartsWith(q.sql, head)
      && |q.params| == CountSome(search, documentType)
      && (search.Some? ==> q.params[0] == "%" + search.value + "%" && Contains(q.sql, SearchClause))
      && (documentType.Some? ==>
            var n := CountSome(search, documentType);
            q.params[n - 1] == documentType.value
            && Contains(q.sql, " AND document_type = ?" + NatToString(n)))
  {
    var f := Filtered(head, search, documentType);
    var sql := Paginate(f.sql + OrderClause, limit, offset);
    FilteredShape(head, search, documentType);
    PaginateEnding(f.sql + OrderClause, limit, offset);
    PrefixStartsWith(f.sql, OrderClause, f.sql);
    StartsWithTrans(sql, f.sql + OrderClause, f.sql);
    StartsWithTrans(sql, f.sql, head);
    if search.Some? { ContainsPrefix(sql, f.sql, SearchClause); }
    if documentType.Some? { ContainsPrefix(sql, f.sql, " AND document_type = ?" + NatToString(CountSome(search, documentType))); }
  }

  /** Text found in a prefix is found in the whole. */
  lemma ContainsPrefix(a: string, p: string, t: string)
    requires StartsWith(a, p) && Contains(p, t)
    ensures Contains(a, t)
  {
    assert a == p + a[|p|..];
    ContainsExtend(p, a[|p|..], t);
  }

  /** The filtered query before ordering already has the head, the values
      and the clauses. */
  lemma FilteredShape(head: string, search: Option<string>, documentType: Option<string>)
    ensures var f := Filtered(head, search, documentType);
      && StartsWith(f.sql, head)
      && |f.params| == CountSome(search, documentType)
      && (search.Some? ==> f.params[0] == "%" + search.value + "%" && Contains(f.sql, SearchClause))
      && (documentType.Some? ==>
            var n := CountSome(search, documentType);
            f.params[n - 1] == documentType.value
            && Contains(f.sql, " AND document_type = ?" + NatToString(n)))
  {
    var s := AddSearch(Query(head, []), search);
    var f := AddType(s, documentType);
    SearchShape(head, search);
    TypeShape(s, documentType);
    StartsWithTrans(f.sql, s.sql, head);
    if search.Some? {
      var tail := f.sql[|s.sql|..];
      assert f.sql == s.sql + tail;
      ContainsExtend(s.sql, tail, SearchClause);
    }
  }

  lemma SearchShape(head: string, search: Option<string>)
    ensures var s := AddSearch(Query(head, []), search);
      && StartsWith(s.sql, head)
      && |s.params| == (if search.Some? then 1 else 0)
      && (search.Some? ==> s.params[0] == "%" + search.value + "%" && Contains(s.sql, SearchClause))
  {
    if search.Some? {
      PrefixStartsWith(head, SearchClause, head);
      ContainsAt(head + SearchClause, SearchClause, |head|);
    }
  }

  lemma TypeShape(q: Query, documentType: Option<string>)
    ensures var f := AddType(q, documentType);
      && StartsWith(f.sql, q.sql)
      && (documentType.Some? ==> Contains(f.sql, " AND document_type = ?" + NatToString(|q.params| + 1)))
  {
    if documentType.Some? {
      var clause := " AND document_type = ?" + NatToString(|q.params| + 1);
      assert q.sql + " AND document_type = ?" + NatToString(|q.params| + 1) == q.sql + clause;
      PrefixStartsWith(q.sql, clause, q.sql);
      ContainsAt(q.sql + clause, clause, |q.sql|);
    }
  }

  lemma StartsWithTrans(a: string, b: string, p: string)
    requires StartsWith(a, b) && StartsWith(b, p)
    ensures StartsWith(a, p)
  {
    assert a[..|p|] == a[..|b|][..|p|];
  }

  /** Text found in a string is still found after something is appended. */
  lemma {:induction false} ContainsExtend(a: string, b: string, t: string)
    requires Contains(a, t)
    ensures Contains(a + b, t)
    decreases |a|
  {
    if StartsWith(a, t) {
      PrefixStartsWith(a, b, t);
    } else {
      ContainsExtend(a[1..], b, t);
      assert (a + b)[1..] == a[1..] + b;
    }
  }

  lemma PrefixStartsWith(a: string, b: string, p: string)
    requires StartsWith(a, p)
    ensures StartsWith(a + b, p)
  {
    assert (a + b)[..|p|] == a[..|p|];
  }

  /** The ordering is always there, after the filters and before any LIMIT
      or OFFSET; the query ends with the OFFSET when one is given, else with
      the LIMIT when one is given, else with the ordering. */
  lemma QueryEnding(search: Option<string>, documentType: Option<string>, limit: Option<int>, offset: Option<int>)
    ensures var q := DocumentsQuery(search, documentType, limit, offset);
      var f := Filtered(SelectHead, search, documentType);
      && StartsWith(q.sql, f.sql + OrderClause)
      && (offset.Some? ==> EndsWith(q.sql, OffsetClause(offset.value)))
      && (offset.None? && limit.Some? ==> EndsWith(q.sql, LimitClause(limit.value)))
      && (offset.None? && limit.None? ==> q.sql == f.sql + OrderClause)
  {
    BuildEnding(SelectHead, search, documentType, limit, offset);
  }

  lemma BuildEnding(head: string, search: Option<string>, documentType: Option<string>, limit: Option<int>, offset: Option<int>)
    ensures var q := BuildQuery(head, search, documentType, limit, offset);
      var f := Filtered(head, search, documentType);
      && StartsWith(q.sql, f.sql + OrderClause)
      && (offset.Some? ==> EndsWith(q.sql, OffsetClause(offset.value)))
      && (offset.None? && limit.Some? ==> EndsWith(q.sql, LimitClause(limit.value)))
      && (offset.None? && limit.None? ==> q.sql == f.sql + OrderClause)
  {
    PaginateEnding(Filtered(head, search, documentType).sql + OrderClause, limit, offset);
  }

  /** Pagination only appends, and the query ends with the last clause
      appended. */
  lemma PaginateEnding(sql: string, limit: Option<int>, offset: Option<int>)
    ensures var r := Paginate(sql, limit, offset);
      && StartsWith(r, sql)
      && (offset.Some? ==> EndsWith(r, OffsetClause(offset.value)))
      && (offset.None? && limit.Some? ==> EndsWith(r, LimitClause(limit.value)))
      && (offset.None? && limit.None? ==> r == sql)
  {
    var limited := if limit.Some? then sql + LimitClause(limit.value) else sql;
    if limit.Some? {
      PrefixStartsWith(sql, LimitClause(limit.value), sql);
      SuffixEndsWith(sql, LimitClause(limit.value));
    }
    if offset.Some? {
      PrefixStartsWith(limited, OffsetClause(offset.value), sql);
      SuffixEndsWith(limited, OffsetClause(offset.value));
    }
  }

  lemma SuffixEndsWith(a: string, b: string)
    ensures EndsWith(a + b, b)
  {
    assert (a + b)[|a + b| - |b|..] == b;
  }

  /** With no filters the query has no placeholders. */
  lemma PlainQuery()
    ensures DocumentsQuery(None, None, None, None) == Query(SelectHead + OrderClause, [])
  {
  }

  /** With both filters the type is bound second, as `?2`. */
  lemma BothFiltersQuery(head: string)
    ensures Filtered(head, Some("tax"), Some("PDF")) ==
      Query(head + SearchClause + " AND document_type = ?2", ["%tax%", "PDF"])
  {
    var s := AddSearch(Query(head, []), Some("tax"));
    assert "%" + "tax" + "%" == "%tax%";
    assert s == Query(head + SearchClause, ["%tax%"]);
    assert NatToString(|s.params| + 1) == "2";
  }

  /** With the type alone it is bound first, as `?1`. */
  lemma TypeOnlyQuery(head: string)
    ensures Filtered(head, None, Some("PDF")) == Query(head + " AND document_type = ?1", ["PDF"])
  {
    assert NatToString(1) == "1";
  }

  /** An OFFSET may come without a LIMIT. */
  lemma OffsetWithoutLimit(sql: string)
    ensures Paginate(sql, None, Some(20)) == sql + " OFFSET 20"
    ensures Paginate(sql, Some(10), Some(20)) == sql + " LIMIT 10 OFFSET 20"
  {
    assert IntToString(10) == "10" by { assert NatToString(10) == NatToString(1) + [DigitChar(0)]; }
    assert IntToString(20) == "20" by { assert NatToString(20) == NatToString(2) + [DigitChar(0)]; }
  }

  // ---------------------------------------------------------------------------
  // The document table as a keyed store

  datatype DocumentRecord = DocumentRecord(
    id: Option<int>,
    title: string,
    filePath: string,
    fileName: string,
    fileSize: int,
    pageCount: int,
    archiveSerial: Option<string>,
    dateCreated: string,
    correspondent: Option<string>,
    documentType: Option<string>,
    storagePath: string,
    tags: string,
    notes: Option<string>,
    createdAt: string,
    updatedAt: string)

  /** A record as the frontend hands it to `save_document`. The frontend's
      type marks `created_at` and `updated_at` optional, so either key may
      be absent (`None`). The other optional fields are `Option`s in the
      store's record too, and an absent key reads as `None` there. */
  datatype DocumentArgument = DocumentArgument(
    id: Option<int>,
    title: string,
    filePath: string,
    fileName: string,
    fileSize: int,
    pageCount: int,
    archiveSerial: Option<string>,
    dateCreated: string,
    correspondent: Option<string>,
    documentType: Option<string>,
    storagePath: string,
    tags: string,
    notes: Option<string>,
    createdAt: Option<string>,
    updatedAt: Option<string>)

  /** The argument that carries every field of a stored record. */
  function Sent(d: DocumentRecord): DocumentArgument {
    DocumentArgument(d.id, d.title, d.filePath, d.fileName, d.fileSize, d.pageCount, d.archiveSerial,
      d.dateCreated, d.correspondent, d.documentType, d.storagePath, d.tags, d.notes,
      Some(d.createdAt), Some(d.updatedAt))
  }

  /** The reader's messages for the two store times when absent. */
  const MissingCreatedAt: string := "missing field `created_at`"
  const MissingUpdatedAt: string := "missing field `updated_at`"

  /** The check the command makes before it runs: the derived reading of a
      `DocumentRecord`, in which an absent `String` field is an error. The
      first absent one in declaration order is the one reported. A present
      argument is read field for field. */
  function ReadDocument(a: DocumentArgument): (r: Result<DocumentRecord, string>)
    ensures r.Ok? <==> a.createdAt.Some? && a.updatedAt.Some?
    ensures a.createdAt.None? ==> r == Err(MissingCreatedAt)
    ensures a.createdAt.Some? && a.updatedAt.None? ==> r == Err(MissingUpdatedAt)
    ensures r.Ok? ==> Sent(r.value) == a
  {
    match (a.createdAt, a.updatedAt)
    case (None, _) => Err(MissingCreatedAt)
    case (_, None) => Err(MissingUpdatedAt)
    case (Some(c), Some(u)) =>
      Ok(DocumentRecord(a.id, a.title, a.filePath, a.fileName, a.fileSize, a.pageCount, a.archiveSerial,
        a.dateCreated, a.correspondent, a.documentType, a.storagePath, a.tags, a.notes, c, u))
  }

  /** Reading back the argument that carries a whole record gives that
      record. */
  lemma ReadSent(d: DocumentRecord)
    ensures ReadDocument(Sent(d)) == Ok(d)
  {
  }

  /** The fields a save or an update writes from the caller's record. */
  datatype Content = Content(
    title: string, fileName: string, fileSize: int, pageCount: int,
    archiveSerial: Option<string>, dateCreated: string, correspondent: Option<string>,
    documentType: Option<string>, storagePath: string, tags: string, notes: Option<string>)

  function ContentOf(d: DocumentRecord): Content {
    Content(d.title, d.fileName, d.fileSize, d.pageCount, d.archiveSerial, d.dateCreated,
            d.correspondent, d.documentType, d.storagePath, d.tags, d.notes)
  }

  /** A stored row with the content of `doc` and the given time as its
      update time; id, file path and creation time stay. */
  function Rewrite(row: DocumentRecord, doc: DocumentRecord, now: string): (r: DocumentRecord)
    ensures ContentOf(r) == ContentOf(doc)
    ensures r.id == row.id && r.filePath == row.filePath && r.createdAt == row.createdAt && r.updatedAt == now
  {
    row.(title := doc.title, fileName := doc.fileName, fileSize := doc.fileSize, pageCount := doc.pageCount,
         archiveSerial := doc.archiveSerial, dateCreated := doc.dateCreated, correspondent := doc.correspondent,
         documentType := doc.documentType, storagePath := doc.storagePath, tags := doc.tags, notes := doc.notes,
         updatedAt := now)
  }

  /** The table: its rows in insertion order, and the largest id ever
      handed out (ids are never reused). */
  datatype Table = Table(rows: seq<DocumentRecord>, lastId: nat)

  /** Every row has a positive id not above the last one handed out; ids
      and file paths are unique. */
  predicate Valid(t: Table) {
    && (forall i :: 0 <= i < |t.rows| ==> t.rows[i].id.Some? && 0 < t.rows[i].id.value <= t.lastId)
    && (forall i, j :: 0 <= i < j < |t.rows| ==> t.rows[i].id != t.rows[j].id)
    && (forall i, j :: 0 <= i < j < |t.rows| ==> t.rows[i].filePath != t.rows[j].filePath)
  }

  /** Index of the row with the given file path. */
  function FindPath(rows: seq<DocumentRecord>, path: string): (r: Option<nat>)
    ensures r.Some? ==> r.value < |rows| && rows[r.value].filePath == path
    ensures r.None? ==> forall i :: 0 <= i < |rows| ==> rows[i].filePath != path
    decreases |rows|
  {
    if |rows| == 0 then None
    else if rows[0].filePath == path then Some(0)
    else match FindPath(rows[1..], path)
      case None => None
      case Some(i) => Some(i + 1)
  }

  /** Index of the row with the given id. */
  function FindId(rows: seq<DocumentRecord>, id: int): (r: Option<nat>)
    ensures r.Some? ==> r.value < |rows| && rows[r.value].id == Some(id)
    ensures r.None? ==> forall i :: 0 <= i < |rows| ==> rows[i].id != Some(id)
    decreases |rows|
  {
    if |rows| == 0 then None
    else if rows[0].id == Some(id) then Some(0)
    else match FindId(rows[1..], id)
      case None => None
      case Some(i) => Some(i + 1)
  }

  /** `save_document`: an upsert keyed by file path. A new path is inserted
      under the next id with both times set to now; an existing path's row
      gets the new content and update time and keeps its id and creation
      time. The id reported is the connection's last inserted row id, which
      on the update path of a fresh connection is 0. */
  function SaveDocument(t: Table, doc: DocumentRecord, now: string): (r: (Table, int))
    ensures |r.0.rows| == if FindPath(t.rows, doc.filePath).Some? then |t.rows| else |t.rows| + 1
  {
    match FindPath(t.rows, doc.filePath)
    case Some(i) => (t.(rows := t.rows[i := Rewrite(t.rows[i], doc, now)]), 0)
    case None =>
      var id := t.lastId + 1;
      var row := Rewrite(doc.(id := Some(id), createdAt := now), doc, now);
      (Table(t.rows + [row], id), id)
  }

  /** `update_document`: the row with that id gets the new content and
      update time; its file path and creation time stay. Without such a
      row nothing changes, and that is not an error. */
  function UpdateDocument(t: Table, id: int, doc: DocumentRecord, now: string): (r: Table)
    ensures |r.rows| == |t.rows| && r.lastId == t.lastId
  {
    match FindId(t.rows, id)
    case Some(i) => t.(rows := t.rows[i := Rewrite(t.rows[i], doc, now)])
    case None => t
  }

  /** `delete_document`: the row with that id is removed, if there is one. */
  function DeleteDocument(t: Table, id: int): (r: Table)
    ensures |r.rows| <= |t.rows| && r.lastId == t.lastId
  {
    match FindId(t.rows, id)
    case Some(i) => t.(rows := RemoveAt(t.rows, i))
    case None => t
  }

  /** `get_document_by_id`. */
  function GetDocumentById(t: Table, id: int): (r: Result<DocumentRecord, string>)
    ensures r.Ok? <==> exists i :: 0 <= i < |t.rows| && t.rows[i].id == Some(id)
    ensures r.Ok? ==> r.value in t.rows && r.value.id == Some(id)
  {
    match FindId(t.rows, id)
    case Some(i) => Ok(t.rows[i])
    case None => Err("Document not found: Query returned no rows")
  }

  function SumSizes(rows: seq<DocumentRecord>): int
    decreases |rows|
  {
    if |rows| == 0 then 0 else SumSizes(rows[..|rows| - 1]) + rows[|rows| - 1].fileSize
  }

  /** `get_stats`: the number of rows and the total of their sizes, 0 for
      an empty table. */
  function Stats(t: Table): (r: (nat, int))
    ensures |t.rows| == 0 ==> r == (0, 0)
  {
    (|t.rows|, SumSizes(t.rows))
  }

  // ---------------------------------------------------------------------------
  // Properties of the store

  /** Saving under a new path appends a row with the next id, the caller's
      content and both times set to now; the id is reported. */
  lemma SaveNewPath(t: Table, doc: DocumentRecord, now: string)
    requires FindPath(t.rows, doc.filePath).None?
    ensures var (t', id) := SaveDocument(t, doc, now);
      && id == t.lastId + 1 && t'.lastId == id
      && t'.rows[..|t.rows|] == t.rows
      && var row := t'.rows[|t.rows|];
      && row.id == Some(id) && row.filePath == doc.filePath
      && ContentOf(row) == ContentOf(doc) && row.createdAt == now && row.updatedAt == now
  {
  }

  /** Saving under a path already stored rewrites that row alone: its id
      and creation time stay, its content becomes the caller's, and the
      reported id is 0. */
  lemma SaveExistingPath(t: Table, doc: DocumentRecord, now: string, i: nat)
    requires Valid(t) && i < |t.rows| && t.rows[i].filePath == doc.filePath
    ensures var (t', id) := SaveDocument(t, doc, now);
      && id == 0 && |t'.rows| == |t.rows| && t'.lastId == t.lastId
      && t'.rows[i].id == t.rows[i].id && t'.rows[i].createdAt == t.rows[i].createdAt
      && ContentOf(t'.rows[i]) == ContentOf(doc) && t'.rows[i].updatedAt == now
      && (forall j :: 0 <= j < |t.rows| && j != i ==> t'.rows[j] == t.rows[j])
  {
    var k := FindPath(t.rows, doc.filePath);
    assert k.Some?;
    assert t.rows[k.value].filePath == t.rows[i].filePath;
    assert k == Some(i);
  }

  /** A save keeps the table valid. */
  lemma SavePreservesValid(t: Table, doc: DocumentRecord, now: string)
    requires Valid(t)
    ensures Valid(SaveDocument(t, doc, now).0)
  {
    var t' := SaveDocument(t, doc, now).0;
    if FindPath(t.rows, doc.filePath).None? {
      assert t'.rows[..|t.rows|] == t.rows;
      forall i, j | 0 <= i < j < |t'.rows|
        ensures t'.rows[i].id != t'.rows[j].id && t'.rows[i].filePath != t'.rows[j].filePath
      {
        if j == |t.rows| {
          assert t'.rows[i] == t.rows[i];
        }
      }
    }
  }

  /** An update keeps the file path and creation time of every row, changes
      only the row with that id, and keeps the table valid. */
  lemma UpdateKeepsKeys(t: Table, id: int, doc: DocumentRecord, now: string)
    requires Valid(t)
    ensures var t' := UpdateDocument(t, id, doc, now);
      && Valid(t')
      && (forall i :: 0 <= i < |t.rows| ==>
            && t'.rows[i].id == t.rows[i].id
            && t'.rows[i].filePath == t.rows[i].filePath
            && t'.rows[i].createdAt == t.rows[i].createdAt
            && (t.rows[i].id == Some(id) ==> ContentOf(t'.rows[i]) == ContentOf(doc) && t'.rows[i].updatedAt == now)
            && (t.rows[i].id != Some(id) ==> t'.rows[i] == t.rows[i]))
  {
    match FindId(t.rows, id)
    case None =>
    case Some(k) =>
      var t' := UpdateDocument(t, id, doc, now);
      assert t'.rows == t.rows[k := Rewrite(t.rows[k], doc, now)];
      forall i | 0 <= i < |t.rows| && i != k
        ensures t.rows[i].id != Some(id)
      {
        if i < k { assert t.rows[i].id != t.rows[k].id; } else { assert t.rows[k].id != t.rows[i].id; }
      }
  }

  /** After a delete no row has that id, the other rows remain in order,
      and the table stays valid. */
  lemma DeleteRemovesId(t: Table, id: int)
    requires Valid(t)
    ensures var t' := DeleteDocument(t, id);
      && Valid(t')
      && (forall i :: 0 <= i < |t'.rows| ==> t'.rows[i].id != Some(id) && t'.rows[i] in t.rows)
      && (forall r :: r in t.rows && r.id != Some(id) ==> r in t'.rows)
  {
    match FindId(t.rows, id)
    case None =>
    case Some(k) =>
      RemoveAtKeepsOthers(t, k);
  }

  lemma RemoveAtKeepsOthers(t: Table, k: nat)
    requires Valid(t) && k < |t.rows|
    ensures var rows := RemoveAt(t.rows, k);
      && Valid(t.(rows := rows))
      && (forall i :: 0 <= i < |rows| ==> rows[i].id != t.rows[k].id && rows[i] in t.rows)
      && (forall r :: r in t.rows && r.id != t.rows[k].id ==> r in rows)
  {
    RemoveAtValid(t, k);
    var rows := RemoveAt(t.rows, k);
    forall i | 0 <= i < |rows|
      ensures rows[i].id != t.rows[k].id && rows[i] in t.rows
    {
      var j := if i < k then i else i + 1;
      assert rows[i] == t.rows[j];
    }
    forall r | r in t.rows && r.id != t.rows[k].id
      ensures r in rows
    {
      var i :| 0 <= i < |t.rows| && t.rows[i] == r;
      if i < k { assert rows[i] == r; } else { assert rows[i - 1] == r; }
    }
  }

  lemma RemoveAtValid(t: Table, k: nat)
    requires Valid(t) && k < |t.rows|
    ensures Valid(t.(rows := RemoveAt(t.rows, k)))
  {
    var rows := RemoveAt(t.rows, k);
    forall i, j | 0 <= i < j < |rows|
      ensures rows[i].id != rows[j].id && rows[i].filePath != rows[j].filePath
    {
      var a, b := if i < k then i else i + 1, if j < k then j else j + 1;
      assert rows[i] == t.rows[a] && rows[j] == t.rows[b] && a < b;
    }
  }

  lemma {:induction false} SumSizesAppend(rows: seq<DocumentRecord>, row: DocumentRecord)
    ensures SumSizes(rows + [row]) == SumSizes(rows) + row.fileSize
  {
    assert (rows + [row])[..|rows|] == rows;
  }

  /** Saving a new path adds one row and its size to the statistics. */
  lemma StatsAfterNewSave(t: Table, doc: DocumentRecord, now: string)
    requires FindPath(t.rows, doc.filePath).None?
    ensures Stats(SaveDocument(t, doc, now).0) == (Stats(t).0 + 1, Stats(t).1 + doc.fileSize)
  {
    var t' := SaveDocument(t, doc, now).0;
    SumSizesAppend(t.rows, t'.rows[|t.rows|]);
    assert t'.rows == t.rows + [t'.rows[|t.rows|]];
  }
}
