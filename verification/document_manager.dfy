/**
 * The document library screen: the client-side filter over the loaded
 * documents (a case-insensitive title or file-name search and an exact type
 * choice), the list of distinct types offered for the type choice, and the
 * record the "add document" button hands to the store, which the store's
 * argument check refuses because it lacks the two store times.
 */
module DocumentManager {
  import opened Wrappers
  import opened Strings
  import opened Database

  // ---------------------------------------------------------------------------
  // The filter

  /** `matchesSearch`: no query, or the lower-cased query occurs in the
      lower-cased title or file name. */
  predicate MatchesSearch(doc: DocumentRecord, query: string) {
    query == "" || Contains(Lower(doc.title), Lower(query)) || Contains(Lower(doc.fileName), Lower(query))
  }

  /** `matchesType`: no type chosen, or the document's type is the one
      chosen. */
  predicate MatchesType(doc: DocumentRecord, selectedType: string) {
    selectedType == "" || doc.documentType == Some(selectedType)
  }

  predicate Matches(doc: DocumentRecord, query: string, selectedType: string) {
    MatchesSearch(doc, query) && MatchesType(doc, selectedType)
  }

  /** `filteredDocuments`. */
  function FilterDocuments(docs: seq<DocumentRecord>, query: string, selectedType: string): (r: seq<DocumentRecord>)
    ensures |r| <= |docs|
    ensures forall i :: 0 <= i < |r| ==> Matches(r[i], query, selectedType)
    decreases |docs|
  {
    if |docs| == 0 then []
    else
      var rest := FilterDocuments(docs[1..], query, selectedType);
      if Matches(docs[0], query, selectedType) then [docs[0]] + rest else rest
  }

  /** `a` is `b` with some elements left out, the rest in their order. */
  predicate SubsequenceOf<T(==)>(a: seq<T>, b: seq<T>)
    decreases |b|
  {
    if |a| == 0 then true
    else if |b| == 0 then false
    else (a[0] == b[0] && SubsequenceOf(a[1..], b[1..])) || SubsequenceOf(a, b[1..])
  }

  /** The filtered list keeps documents in their loaded order. */
  lemma {:induction false} FilterIsSubsequence(docs: seq<DocumentRecord>, query: string, selectedType: string)
    ensures SubsequenceOf(FilterDocuments(docs, query, selectedType), docs)
    decreases |docs|
  {
    if |docs| > 0 {
      FilterIsSubsequence(docs[1..], query, selectedType);
      var r := FilterDocuments(docs, query, selectedType);
      if Matches(docs[0], query, selectedType) {
        assert r[0] == docs[0] && r[1..] == FilterDocuments(docs[1..], query, selectedType);
      } else if |r| > 0 {
        assert r == FilterDocuments(docs[1..], query, selectedType);
      }
    }
  }

  /** A document is listed exactly when it is loaded and matches both
      conditions. */
  lemma {:induction false} FilterMembership(docs: seq<DocumentRecord>, query: string, selectedType: string, d: DocumentRecord)
    ensures d in FilterDocuments(docs, query, selectedType) <==> d in docs && Matches(d, query, selectedType)
    decreases |docs|
  {
    if |docs| > 0 {
      FilterMembership(docs[1..], query, selectedType, d);
      assert docs == [docs[0]] + docs[1..];
    }
  }

  /** With neither a query nor a type, everything is listed. */
  lemma {:induction false} NoFilterKeepsAll(docs: seq<DocumentRecord>)
    ensures FilterDocuments(docs, "", "") == docs
    decreases |docs|
  {
    if |docs| > 0 {
      NoFilterKeepsAll(docs[1..]);
      assert docs == [docs[0]] + docs[1..];
    }
  }

  /** The search ignores letter case in the query. */
  lemma SearchIgnoresQueryCase(doc: DocumentRecord, query: string)
    ensures MatchesSearch(doc, Lower(query)) <==> MatchesSearch(doc, query)
  {
    forall i | 0 <= i < |query|
      ensures Lower(Lower(query))[i] == Lower(query)[i]
    {
    }
    assert Lower(Lower(query)) == Lower(query);
    if query != "" {
      assert |Lower(query)| > 0;
    }
  }

  // ---------------------------------------------------------------------------
  // The type choices

  /** `Array.from(new Set(documents.map(d => d.document_type).filter(Boolean)))`:
      each non-empty type once, in the order of first appearance. */
  function DocumentTypes(docs: seq<DocumentRecord>): (r: seq<string>)
    ensures forall i :: 0 <= i < |r| ==> r[i] != ""
    ensures forall i, j :: 0 <= i < j < |r| ==> r[i] != r[j]
    decreases |docs|
  {
    if |docs| == 0 then []
    else
      var r := DocumentTypes(docs[..|docs| - 1]);
      var t := docs[|docs| - 1].documentType;
      if t.Some? && t.value != "" && t.value !in r then r + [t.value] else r
  }

  /** A type is offered exactly when some document has it and it is not
      empty. */
  lemma {:induction false} TypesMembership(docs: seq<DocumentRecord>, t: string)
    ensures t in DocumentTypes(docs) <==> t != "" && exists i :: 0 <= i < |docs| && docs[i].documentType == Some(t)
    decreases |docs|
  {
    if |docs| > 0 {
      var init := docs[..|docs| - 1];
      TypesMembership(init, t);
      if i :| 0 <= i < |init| && init[i].documentType == Some(t) {
        assert docs[i].documentType == Some(t);
      }
      if i :| 0 <= i < |docs| && docs[i].documentType == Some(t) {
        if i < |init| {
          assert init[i].documentType == Some(t);
        }
      }
    }
  }

  /** Index of the first document with type `t`, `|docs|` when none. */
  function FirstWithType(docs: seq<DocumentRecord>, t: string): (k: nat)
    ensures k <= |docs|
    ensures k < |docs| ==> docs[k].documentType == Some(t)
    ensures forall i :: 0 <= i < k ==> docs[i].documentType != Some(t)
    decreases |docs|
  {
    if |docs| == 0 then 0
    else if docs[0].documentType == Some(t) then 0
    else 1 + FirstWithType(docs[1..], t)
  }

  /** A type that first appears before the last document first appears at
      the same place with the last document included. */
  lemma FirstWithTypeOfPrefix(docs: seq<DocumentRecord>, t: string)
    requires |docs| > 0
    ensures FirstWithType(docs[..|docs| - 1], t) < |docs| - 1 ==> FirstWithType(docs, t) == FirstWithType(docs[..|docs| - 1], t)
  {
    var init := docs[..|docs| - 1];
    var k := FirstWithType(init, t);
    if k < |init| {
      assert docs[k] == init[k];
      assert forall i :: 0 <= i < k ==> docs[i] == init[i];
    }
  }

  /** The types are offered in the order of their first appearance. */
  lemma {:induction false} TypesInFirstAppearanceOrder(docs: seq<DocumentRecord>, i: nat, j: nat)
    requires i < j < |DocumentTypes(docs)|
    ensures FirstWithType(docs, DocumentTypes(docs)[i]) < FirstWithType(docs, DocumentTypes(docs)[j])
    decreases |docs|
  {
    var init := docs[..|docs| - 1];
    var r := DocumentTypes(docs);
    var r0 := DocumentTypes(init);
    var a, b := r[i], r[j];
    TypesMembership(init, a);
    assert a in r0 by {
      if |r| > |r0| {
        assert i < |r0| && r[i] == r0[i];
      }
    }
    var ka := FirstWithType(init, a);
    assert ka < |init| by {
      var w :| 0 <= w < |init| && init[w].documentType == Some(a);
      assert FirstWithType(init, a) <= w;
    }
    FirstWithTypeOfPrefix(docs, a);
    FirstWithTypeOfPrefix(docs, b);
    if j < |r0| {
      assert r[i] == r0[i] && r[j] == r0[j];
      TypesInFirstAppearanceOrder(init, i, j);
      TypesMembership(init, b);
      var w :| 0 <= w < |init| && init[w].documentType == Some(b);
      assert FirstWithType(init, b) <= w;
    } else {
      assert j == |r0| && b == docs[|docs| - 1].documentType.value && b !in r0;
      TypesMembership(init, b);
      assert FirstWithType(init, b) == |init|;
    }
  }

  // ---------------------------------------------------------------------------
  // Adding a document

  /** The record `handleAddDocument` builds for a chosen file: the title is
      the file name with its first `.pdf` removed, the type is "PDF" and
      there are no tags or notes. The id and both store times are left out;
      the file size, the page count and the creation date come from the
      backend and the clock. */
  function NewDocument(filePath: string, fileSize: int, pageCount: int, dateCreated: string): (d: DocumentArgument)
    ensures d.fileName == Basename(filePath) && d.filePath == filePath && d.storagePath == filePath
    ensures d.documentType == Some("PDF") && d.tags == "" && d.notes == Some("")
    ensures !Contains(d.fileName, ".pdf") ==> d.title == d.fileName
    ensures d.id.None? && d.createdAt.None? && d.updatedAt.None?
  {
    var fileName := Basename(filePath);
    DocumentArgument(
      None, ReplaceFirst(fileName, ".pdf", ""), filePath, fileName, fileSize, pageCount,
      None, dateCreated, None, Some("PDF"), filePath, "", Some(""), None, None)
  }

  /** The record with both store times filled in, as the store's record type
      demands. The store sets them itself on a save, so any stamp will do. */
  function WithStoreTimes(a: DocumentArgument, stamp: string): (r: DocumentArgument)
    ensures r.createdAt.Some? && r.updatedAt.Some?
    ensures r.(createdAt := a.createdAt, updatedAt := a.updatedAt) == a
  {
    a.(createdAt := Some(a.createdAt.GetOr(stamp)), updatedAt := Some(a.updatedAt.GetOr(stamp)))
  }

  /** The start of the alert shown when adding fails. */
  const AddFailed: string := "Failed to add document: "

  /** What `handleAddDocument` leaves behind once the file is chosen and
      measured: the store and the alert shown. */
  datatype AddOutcome = AddOutcome(table: Table, alert: string)

  /** `handleAddDocument` from the save on: a record the command refuses
      ends in the "Failed to add document" alert with the store unchanged;
      otherwise the record is saved and the success alert names the file. */
  function AddDocument(t: Table, a: DocumentArgument, now: string): (o: AddOutcome)
    ensures a.createdAt.None? || a.updatedAt.None? ==> o.table == t && StartsWith(o.alert, AddFailed)
    ensures a.createdAt.Some? && a.updatedAt.Some? ==>
      |o.table.rows| == (if FindPath(t.rows, a.filePath).Some? then |t.rows| else |t.rows| + 1)
      && o.alert == "Document \"" + a.fileName + "\" added successfully!"
  {
    match ReadDocument(a)
    case Err(e) => AddOutcome(t, AddFailed + e)
    case Ok(d) => AddOutcome(SaveDocument(t, d, now).0, "Document \"" + a.fileName + "\" added successfully!")
  }

  /** A name without dots before its `.pdf` extension gets that stem as
      its title. */
  lemma TitleIsStem(stem: string)
    requires forall i :: 0 <= i < |stem| ==> stem[i] != '.'
    ensures ReplaceFirst(stem + ".pdf", ".pdf", "") == stem
  {
    var s := stem + ".pdf";
    assert s[|stem|..] == ".pdf";
    ContainsAt(s, ".pdf", |stem|);
    var k := FindFirst(s, ".pdf").value;
    assert StartsWith(s[|stem|..], ".pdf");
    assert s[k] == s[k..k + 4][0] == '.';
    assert forall i :: 0 <= i < |stem| ==> s[i] == stem[i];
    assert k == |stem|;
    assert s[..|stem|] == stem;
  }

  /** As written, every added document is refused: the record lacks
      `created_at`, the first required field it leaves out, so the store is
      unchanged and the failure alert is shown. */
  lemma AddDocumentRefused(t: Table, filePath: string, fileSize: int, pageCount: int, dateCreated: string, now: string)
    ensures AddDocument(t, NewDocument(filePath, fileSize, pageCount, dateCreated), now)
      == AddOutcome(t, AddFailed + MissingCreatedAt)
  {
    RefusedWithoutCreatedAt(t, NewDocument(filePath, fileSize, pageCount, dateCreated), now);
  }

  /** Any record without `created_at` is refused for it. */
  lemma RefusedWithoutCreatedAt(t: Table, a: DocumentArgument, now: string)
    requires a.createdAt.None?
    ensures AddDocument(t, a, now) == AddOutcome(t, AddFailed + MissingCreatedAt)
  {
  }

  /** With the store times filled in, adding a document at a new path
      appends it under the next id, with type PDF, its path, both times set
      to the save time whatever stamp was sent, and the success alert. */
  lemma AddedDocumentIsStored(t: Table, filePath: string, fileSize: int, pageCount: int, dateCreated: string, stamp: string, now: string)
    requires FindPath(t.rows, filePath).None?
    ensures var a := WithStoreTimes(NewDocument(filePath, fileSize, pageCount, dateCreated), stamp);
      var o := AddDocument(t, a, now);
      var row := o.table.rows[|t.rows|];
      |o.table.rows| == |t.rows| + 1 && o.table.rows[..|t.rows|] == t.rows
      && row.id == Some(t.lastId + 1) && row.documentType == Some("PDF") && row.filePath == filePath
      && row.createdAt == now && row.updatedAt == now
      && o.alert == "Document \"" + Basename(filePath) + "\" added successfully!"
  {
    var a := WithStoreTimes(NewDocument(filePath, fileSize, pageCount, dateCreated), stamp);
    var d := ReadDocument(a).value;
    assert d.filePath == filePath;
    SaveNewPath(t, d, now);
  }
}
