/**
 * The document editor as a state machine. Every handler of the editor is a
 * pure transition on a `Session` record; a handler that calls the backend
 * returns the request it sends, and the backend's answer comes back later as
 * an event of its own. Timers are explicit: arming one records its id and
 * delay, and its expiry is the `TimerFired` event.
 */
module EditorSession {
  import opened Wrappers
  import opened Strings
  import opened EditorPages
  import opened Seqs

  /** Delay of the autosave that a finished drag arms. */
  const AutosaveDelayMs: nat := 3000
  /** How long the save toasts stay up. */
  const SaveToastMs: nat := 3000
  /** How long the content-commit toasts stay up. */
  const CommitToastMs: nat := 4000
  /** Tesseract languages and output format the editor asks the OCR backend for. */
  const OcrLanguages: string := "eng+ind"
  const OcrOutputFormat: string := "text"

  const SavedMessage: string := "✓ Changes saved successfully"
  const SaveFailedMessage: string := "✗ Failed to save changes"
  const CommitFailedDefault: string := "Failed to update PDF"

  /** A call to the backend. */
  datatype Request =
    | OcrRequest(pdfPath: string, languages: string, outputFormat: string)
    | ReorderRequest(inputPath: string, outputPath: string, pageOrder: seq<int>)
    | UpdateTextRequest(inputPath: string, outputPath: string, oldContent: string, newContent: string)

  datatype Toast = Toast(message: string, durationMs: nat)

  /** What the OCR backend answered. */
  datatype OcrReply =
    | OcrSucceeded(data: Option<string>)
    | OcrReportedError(message: string)
    | OcrCallFailed(error: string)

  /** What the text-update backend answered. */
  datatype CommitReply =
    | Committed(totalReplacements: Option<nat>)
    | CommitRejected(message: Option<string>)
    | CommitCallFailed(error: string)

  datatype Session = Session(
    pdfPath: string,
    pages: seq<Page>,
    selected: set<int>,
    dragged: Option<int>,
    dragOver: Option<int>,
    unsaved: bool,
    isSaving: bool,
    /** Id of the last autosave timer armed; kept after it fires. */
    saveTimeout: Option<nat>,
    /** Pending timers: id to delay in milliseconds. */
    armed: map<nat, nat>,
    nextTimerId: nat,
    ocrText: string,
    loadingOcr: bool,
    editing: bool,
    draft: string,
    toast: Option<Toast>)

  /** A transition's result: the next state and the backend call it makes, if any. */
  datatype Outcome = Outcome(next: Session, request: Option<Request>)

  function Init(pdfPath: string): (s: Session)
    ensures s.pdfPath == pdfPath && s.pages == [] && !s.unsaved && !s.isSaving && s.armed == map[]
  {
    Session(pdfPath, [], {}, None, None, false, false, None, map[], 1, "", false, false, "", None)
  }

  /** The autosave timer bookkeeping: at most one autosave is pending, it is
      the one recorded in `saveTimeout`, it has the 3 s delay, and ids in use
      are below the next id. The cards are an arrangement of 1..N turned by
      quarter turns. */
  predicate Valid(s: Session) {
    && s.nextTimerId >= 1
    && (s.saveTimeout.Some? ==> 1 <= s.saveTimeout.value < s.nextTimerId)
    && (forall id :: id in s.armed ==> s.saveTimeout == Some(id) && s.armed[id] == AutosaveDelayMs)
    && IsArrangement(s.pages)
    && AllQuarterTurns(s.pages)
  }

  lemma InitValid(pdfPath: string)
    ensures Valid(Init(pdfPath))
  {
  }

  // ---------------------------------------------------------------------------
  // Output paths

  /** `path.replace(/\.pdf$/i, tag + ts + '.pdf')`: a trailing `.pdf` in any
      case becomes the tag, the decimal timestamp and `.pdf`; a path without
      that ending is left as it is. */
  function TimestampedPath(path: string, tag: string, ts: nat): (r: string)
    ensures EndsWithPdfIgnoreCase(path) ==>
      && |r| > |path| + |tag|
      && r[..|path| - 4 + |tag|] == path[..|path| - 4] + tag
      && r[|r| - 4..] == ".pdf"
      && AllDigits(r[|path| - 4 + |tag|..|r| - 4])
      && DecValue(r[|path| - 4 + |tag|..|r| - 4]) == ts
    ensures !EndsWithPdfIgnoreCase(path) ==> r == path
  {
    if EndsWithPdfIgnoreCase(path) then
      var stem := path[..|path| - 4];
      var digits := NatToString(ts);
      var r := stem + tag + digits + ".pdf";
      assert r[..|stem + tag|] == stem + tag;
      assert r[|path| - 4 + |tag|..|r| - 4] == digits;
      DecValueOfNatToString(ts);
      r
    else path
  }

  /** The name shown in the commit toast: the text after the last backslash,
      or when that is empty the text after the last slash (no further
      fallback). */
  function ToastName(path: string): (r: string)
    ensures EndsWith(path, r)
    ensures '\\' !in path && '/' !in path ==> r == path
    ensures |path| > 0 && path[|path| - 1] != '\\' ==> r == LastSegment(path, '\\') && '\\' !in r && r != ""
  {
    LastSegmentShape(path, '\\');
    LastSegmentShape(path, '/');
    var afterBackslash := LastSegment(path, '\\');
    if afterBackslash != "" then afterBackslash
    else LastSegment(path, '/')
  }

  // ---------------------------------------------------------------------------
  // Loading

  /** The page count and thumbnails have arrived. The cards are rebuilt;
      when thumbnails came back, text extraction starts on its own, and
      when thumbnail generation reported an error it does not. */
  function PagesLoaded(s: Session, pageCount: int, thumbnails: Option<seq<ThumbEntry>>): (o: Outcome)
    ensures o.next.pages == LoadPages(pageCount, thumbnails)
    ensures thumbnails.None? ==> o.request.None? && o.next == s.(pages := o.next.pages)
    ensures thumbnails.Some? ==> o.request == Some(OcrRequest(s.pdfPath, OcrLanguages, OcrOutputFormat)) && o.next.loadingOcr
  {
    var loaded := s.(pages := LoadPages(pageCount, thumbnails));
    if thumbnails.None? then Outcome(loaded, None) else ExtractText(loaded)
  }

  // ---------------------------------------------------------------------------
  // Selection, rotation, drag and drop

  function TogglePage(s: Session, n: int): (r: Session)
    ensures n in r.selected <==> n !in s.selected
    ensures r.pages == s.pages && r == s.(selected := r.selected)
  {
    s.(selected := ToggleSelection(s.selected, n))
  }

  /** The rotate button of a card: a quarter turn of the cards with that
      number. It neither marks the document unsaved nor arms a save. */
  function RotateClick(s: Session, n: int): (r: Session)
    ensures Numbers(r.pages) == Numbers(s.pages)
    ensures r == s.(pages := r.pages)
  {
    s.(pages := RotatePage(s.pages, n, 90))
  }

  /** Starting a drag records the dragged card and clears the hover target. */
  function DragStart(s: Session, n: int): (r: Session)
    ensures r.dragged == Some(n) && r.dragOver.None?
    ensures r == s.(dragged := Some(n), dragOver := None)
  {
    s.(dragged := Some(n), dragOver := None)
  }

  /** Hovering over card `n` records it as the target, but only during a
      drag and only when it is not the dragged card itself. */
  function DragOver(s: Session, n: int): (r: Session)
    ensures r.dragOver != s.dragOver ==> s.dragged.Some? && s.dragged != Some(n) && r.dragOver == Some(n)
    ensures s.dragged.Some? && s.dragged != Some(n) ==> r.dragOver == Some(n)
    ensures r == s.(dragOver := r.dragOver)
  {
    if s.dragged.None? || s.dragged == Some(n) then s
    else if s.dragOver != Some(n) then s.(dragOver := Some(n))
    else s
  }

  /** Leaving a card for a point outside it clears the hover target. */
  function DragLeave(s: Session, leftCard: bool): (r: Session)
    ensures leftCard ==> r.dragOver.None?
    ensures !leftCard ==> r == s
    ensures r == s.(dragOver := r.dragOver)
  {
    if leftCard then s.(dragOver := None) else s
  }

  /** Dropping on card `target`: during a drag onto another card that is
      present, the dragged card moves to the target's index and the hover
      target is cleared; otherwise nothing changes. */
  function Drop(s: Session, target: int): (r: Session)
    ensures s.dragged.None? || s.dragged == Some(target) ==> r == s
    ensures s.dragged.Some? ==> r.pages == MovePage(s.pages, s.dragged.value, target)
    ensures r.dragged == s.dragged && r.unsaved == s.unsaved && r.armed == s.armed
    ensures multiset(r.pages) == multiset(s.pages)
  {
    if s.dragged.None? then s
    else if s.dragged == Some(target) then
      MovePageOntoItself(s.pages, target);
      s
    else
      var d := s.dragged.value;
      if FindPage(s.pages, d).None? || FindPage(s.pages, target).None? then
        MovePageAbsent(s.pages, d, target);
        s
      else MoveDragged(s, d, target)
  }

  /** The drop that moves a card: the page order changes, the hover target
      is cleared, and nothing else. */
  function MoveDragged(s: Session, d: int, target: int): (r: Session)
    ensures r.pages == MovePage(s.pages, d, target) && multiset(r.pages) == multiset(s.pages)
    ensures r.dragOver.None? && r.dragged == s.dragged && r.unsaved == s.unsaved && r.armed == s.armed
  {
    s.(pages := MovePage(s.pages, d, target), dragOver := None)
  }

  /** The end of every drag, whether or not it moved anything: the drag
      state is cleared, the document is marked unsaved, the pending
      autosave (if any) is cancelled and a new 3 s autosave is armed. */
  function DragEnd(s: Session): (r: Session)
    ensures r.dragged.None? && r.dragOver.None? && r.unsaved
    ensures r.saveTimeout == Some(s.nextTimerId) && r.nextTimerId == s.nextTimerId + 1
    ensures r.armed.Keys == (s.armed.Keys - (if s.saveTimeout.Some? then {s.saveTimeout.value} else {})) + {s.nextTimerId}
    ensures r.armed[s.nextTimerId] == AutosaveDelayMs
    ensures r.pages == s.pages && r.pdfPath == s.pdfPath && r.isSaving == s.isSaving
  {
    var cancelled := if s.saveTimeout.Some? then s.armed - {s.saveTimeout.value} else s.armed;
    var id := s.nextTimerId;
    s.(dragOver := None, dragged := None, unsaved := true,
       armed := cancelled[id := AutosaveDelayMs], saveTimeout := Some(id), nextTimerId := id + 1)
  }

  // ---------------------------------------------------------------------------
  // Saving the page order

  /** Saving the page order. With nothing unsaved or no cards it does
      nothing; otherwise it marks a save in progress and asks the backend to
      rewrite the original file's pages in display order into a timestamped
      sibling. Only page numbers are sent: rotations are not part of it. */
  function SaveChanges(s: Session, ts: nat): (o: Outcome)
    ensures !s.unsaved || |s.pages| == 0 ==> o == Outcome(s, None)
    ensures s.unsaved && |s.pages| > 0 ==>
      && o.next == s.(isSaving := true)
      && o.request == Some(ReorderRequest(s.pdfPath, TimestampedPath(s.pdfPath, "_reordered_", ts), Numbers(s.pages)))
  {
    if !s.unsaved || |s.pages| == 0 then Outcome(s, None)
    else
      Outcome(s.(isSaving := true),
        Some(ReorderRequest(s.pdfPath, TimestampedPath(s.pdfPath, "_reordered_", ts), Numbers(s.pages))))
  }

  /** The backend's answer to a save. Success clears the unsaved mark (and
      shows a toast when the save was a manual one); failure keeps it and
      shows the failure toast. Either way no save is in progress after. */
  function SaveFinished(s: Session, showMessage: bool, succeeded: bool): (r: Session)
    ensures !r.isSaving
    ensures succeeded ==> !r.unsaved
    ensures !succeeded ==> r.unsaved == s.unsaved && r.toast == Some(Toast(SaveFailedMessage, SaveToastMs))
    ensures succeeded && !showMessage ==> r.toast == s.toast
    ensures r.pages == s.pages && r.pdfPath == s.pdfPath
  {
    if succeeded then
      var saved := s.(unsaved := false, isSaving := false);
      if showMessage then saved.(toast := Some(Toast(SavedMessage, SaveToastMs))) else saved
    else s.(toast := Some(Toast(SaveFailedMessage, SaveToastMs)), isSaving := false)
  }

  /** A timer expires. Only an armed autosave does anything: it is disarmed
      and runs the save without the success toast. It does not look at
      `isSaving`. */
  function TimerFired(s: Session, id: nat, ts: nat): (o: Outcome)
    ensures id !in s.armed ==> o == Outcome(s, None)
    ensures id in s.armed ==> o == SaveChanges(s.(armed := s.armed - {id}), ts) && id !in o.next.armed
  {
    if id !in s.armed then Outcome(s, None)
    else SaveChanges(s.(armed := s.armed - {id}), ts)
  }

  /** The save button is enabled only with unsaved changes and no save in progress. */
  predicate SaveButtonEnabled(s: Session) {
    s.unsaved && !s.isSaving
  }

  // ---------------------------------------------------------------------------
  // Extracted text and its editing

  /** Text extraction starts: the loading flag is set and the OCR backend is
      asked for plain text of the whole document. */
  function ExtractText(s: Session): (o: Outcome)
    ensures o.next.loadingOcr
    ensures o.request == Some(OcrRequest(s.pdfPath, OcrLanguages, OcrOutputFormat))
    ensures o.next == s.(loadingOcr := true)
  {
    Outcome(s.(loadingOcr := true), Some(OcrRequest(s.pdfPath, OcrLanguages, OcrOutputFormat)))
  }

  /** The OCR backend's answer: on success its text (or the empty string
      when it sent none) replaces the extracted text; on failure the old text
      stays. Loading ends either way. */
  function ExtractFinished(s: Session, reply: OcrReply): (r: Session)
    ensures !r.loadingOcr
    ensures reply.OcrSucceeded? ==> r.ocrText == reply.data.GetOr("")
    ensures !reply.OcrSucceeded? ==> r.ocrText == s.ocrText
    ensures r.editing == s.editing && r.draft == s.draft
  {
    match reply
    case OcrSucceeded(data) => s.(ocrText := data.GetOr(""), loadingOcr := false)
    case _ => s.(loadingOcr := false)
  }

  function ClearText(s: Session): (r: Session)
    ensures r.ocrText == "" && r == s.(ocrText := "")
  {
    s.(ocrText := "")
  }

  /** Editing starts from a copy of the extracted text. */
  function EditClick(s: Session): (r: Session)
    ensures r.editing && r.draft == s.ocrText && r.ocrText == s.ocrText
  {
    s.(draft := s.ocrText, editing := true)
  }

  function DraftChanged(s: Session, text: string): (r: Session)
    ensures r.draft == text && r.ocrText == s.ocrText && r.editing == s.editing
  {
    s.(draft := text)
  }

  /** Cancelling leaves edit mode, throws the draft away and keeps the
      extracted text. */
  function CancelEdit(s: Session): (r: Session)
    ensures !r.editing && r.draft == "" && r.ocrText == s.ocrText
  {
    s.(editing := false, draft := "")
  }

  /** Committing the draft: a save is marked in progress and the backend is
      asked to turn the extracted text into the draft in a timestamped
      sibling of the original file. Nothing checks whether the extracted
      text still describes the file. */
  function CommitClick(s: Session, ts: nat): (o: Outcome)
    ensures o.next == s.(isSaving := true)
    ensures o.request == Some(UpdateTextRequest(s.pdfPath, TimestampedPath(s.pdfPath, "_edited_", ts), s.ocrText, s.draft))
  {
    Outcome(s.(isSaving := true),
      Some(UpdateTextRequest(s.pdfPath, TimestampedPath(s.pdfPath, "_edited_", ts), s.ocrText, s.draft)))
  }

  /** The message of the error the commit handler raises when the backend
      reports failure: its message, or a default when it sent none. */
  function RejectionText(message: Option<string>): (r: string)
    ensures message.Some? && message.value != "" ==> r == "Error: " + message.value
    ensures message.None? || message.value == "" ==> r == "Error: " + CommitFailedDefault
  {
    "Error: " + (if message.Some? && message.value != "" then message.value else CommitFailedDefault)
  }

  /** The backend's answer to a commit. `draftAtClick` and `outputPath` are
      the values the commit started with. Success makes that draft the
      extracted text and leaves edit mode; failure keeps edit mode and the
      current draft. No save is in progress afterwards. */
  function CommitFinished(s: Session, draftAtClick: string, outputPath: string, reply: CommitReply): (r: Session)
    ensures !r.isSaving
    ensures reply.Committed? ==> r.ocrText == draftAtClick && !r.editing && r.draft == s.draft
    ensures reply.Committed? ==> r.toast == Some(Toast(
      "✓ PDF saved: " + ToastName(outputPath) + " (" + NatToString(reply.totalReplacements.GetOr(0)) + " changes)",
      CommitToastMs))
    ensures !reply.Committed? ==> r.ocrText == s.ocrText && r.editing == s.editing && r.draft == s.draft
    ensures reply.CommitRejected? ==> r.toast == Some(Toast("✗ Failed to save: " + RejectionText(reply.message), CommitToastMs))
    ensures reply.CommitCallFailed? ==> r.toast == Some(Toast("✗ Failed to save: " + reply.error, CommitToastMs))
    ensures r.pages == s.pages && r.unsaved == s.unsaved
  {
    match reply
    case Committed(total) =>
      var message := "✓ PDF saved: " + ToastName(outputPath) + " (" + NatToString(total.GetOr(0)) + " changes)";
      s.(ocrText := draftAtClick, editing := false, toast := Some(Toast(message, CommitToastMs)), isSaving := false)
    case CommitRejected(msg) =>
      s.(toast := Some(Toast("✗ Failed to save: " + RejectionText(msg), CommitToastMs)), isSaving := false)
    case CommitCallFailed(err) =>
      s.(toast := Some(Toast("✗ Failed to save: " + err, CommitToastMs)), isSaving := false)
  }

  // ---------------------------------------------------------------------------
  // Events

  datatype Event =
    | PagesArrived(pageCount: int, thumbnails: Option<seq<ThumbEntry>>)
    | LoadFailed
    | CardClicked(n: int)
    | RotateClicked(n: int)
    | DragStarted(n: int)
    | DraggedOver(n: int)
    | DragLeft(leftCard: bool)
    | Dropped(target: int)
    | DragEnded
    | TimerExpired(id: nat, now: nat)
    | SaveClicked(now: nat)
    | SaveAnswered(showMessage: bool, succeeded: bool)
    | ExtractClicked
    | ExtractAnswered(ocrReply: OcrReply)
    | ClearClicked
    | EditClicked
    | DraftTyped(text: string)
    | CancelClicked
    | CommitClicked(now: nat)
    | CommitAnswered(draftAtClick: string, outputPath: string, commitReply: CommitReply)
    | ToastTimedOut

  /** Whether the control an event comes from is on screen and enabled. The
      save button needs unsaved changes and no save in progress; the extract
      buttons are disabled while extracting; clear, edit, commit and cancel
      are shown only next to non-empty extracted text, edit outside edit
      mode and commit and cancel inside it. */
  predicate Available(s: Session, e: Event) {
    match e
    case SaveClicked(_) => SaveButtonEnabled(s)
    case ExtractClicked => !s.loadingOcr
    case ClearClicked => s.ocrText != ""
    case EditClicked => s.ocrText != "" && !s.editing
    case CancelClicked => s.ocrText != "" && s.editing
    case CommitClicked(_) => s.ocrText != "" && s.editing
    case DraftTyped(_) => s.ocrText != "" && s.editing
    case _ => true
  }

  /** One event applied to the editor. An event from a control that is not
      available changes nothing. */
  function Step(s: Session, e: Event): (o: Outcome)
    ensures !Available(s, e) ==> o == Outcome(s, None)
    ensures o.next.pdfPath == s.pdfPath
    ensures o.request.Some? && o.request.value.ReorderRequest? ==> o.request.value.inputPath == s.pdfPath && o.request.value.pageOrder == Numbers(s.pages) && |s.pages| > 0
  {
    if !Available(s, e) then Outcome(s, None)
    else
      HandleReorders(s, e);
      Handle(s, e)
  }

  /** The events of the page grid: loading, selection and rotation. */
  predicate GridEvent(e: Event) {
    e.PagesArrived? || e.LoadFailed? || e.CardClicked? || e.RotateClicked?
  }

  /** The events of dragging a card. */
  predicate DragEvent(e: Event) {
    e.DragStarted? || e.DraggedOver? || e.DragLeft? || e.Dropped? || e.DragEnded?
  }

  /** The events of saving the page order. */
  predicate SaveEvent(e: Event) {
    e.TimerExpired? || e.SaveClicked? || e.SaveAnswered?
  }

  /** The events of the extracted-text panel and the toast. */
  predicate TextEvent(e: Event) {
    !GridEvent(e) && !DragEvent(e) && !SaveEvent(e)
  }

  /** The handler an event runs. */
  function Handle(s: Session, e: Event): (o: Outcome)
  {
    if GridEvent(e) then HandleGrid(s, e)
    else if DragEvent(e) then Outcome(HandleDrag(s, e), None)
    else if SaveEvent(e) then HandleSave(s, e)
    else HandleText(s, e)
  }

  function HandleGrid(s: Session, e: Event): (o: Outcome)
    requires GridEvent(e)
  {
    match e
      case PagesArrived(n, thumbs) => PagesLoaded(s, n, thumbs)
      case LoadFailed => Outcome(s, None)
      case CardClicked(n) => Outcome(TogglePage(s, n), None)
      case RotateClicked(n) => Outcome(RotateClick(s, n), None)
  }

  function HandleDrag(s: Session, e: Event): (r: Session)
    requires DragEvent(e)
  {
    match e
      case DragStarted(n) => DragStart(s, n)
      case DraggedOver(n) => DragOver(s, n)
      case DragLeft(leftCard) => DragLeave(s, leftCard)
      case Dropped(t) => Drop(s, t)
      case DragEnded => DragEnd(s)
  }

  function HandleSave(s: Session, e: Event): (o: Outcome)
    requires SaveEvent(e)
  {
    match e
      case TimerExpired(id, now) => TimerFired(s, id, now)
      case SaveClicked(now) => SaveChanges(s, now)
      case SaveAnswered(show, ok) => Outcome(SaveFinished(s, show, ok), None)
  }

  function HandleText(s: Session, e: Event): (o: Outcome)
    requires TextEvent(e)
  {
    match e
      case ExtractClicked => ExtractText(s)
      case ExtractAnswered(reply) => Outcome(ExtractFinished(s, reply), None)
      case ClearClicked => Outcome(ClearText(s), None)
      case EditClicked => Outcome(EditClick(s), None)
      case DraftTyped(text) => Outcome(DraftChanged(s, text), None)
      case CancelClicked => Outcome(CancelEdit(s), None)
      case CommitClicked(now) => CommitClick(s, now)
      case CommitAnswered(d, p, reply) => Outcome(CommitFinished(s, d, p, reply), None)
      case ToastTimedOut => Outcome(s.(toast := None), None)
  }

  /** Applies events in order and collects the backend calls they make. */
  function Run(s: Session, events: seq<Event>): (o: (Session, seq<Request>))
    ensures o.0.pdfPath == s.pdfPath
    decreases |events|
  {
    if |events| == 0 then (s, [])
    else
      var first := Step(s, events[0]);
      var rest := Run(first.next, events[1..]);
      (rest.0, (if first.request.Some? then [first.request.value] else []) + rest.1)
  }

  // ---------------------------------------------------------------------------
  // Properties

  /** Only the save paths send a reorder, and it is always for the open file
      and lists every card. */
  lemma HandleReorders(s: Session, e: Event)
    ensures Handle(s, e).next.pdfPath == s.pdfPath
    ensures var o := Handle(s, e);
      o.request.Some? && o.request.value.ReorderRequest? ==> o.request.value.inputPath == s.pdfPath && o.request.value.pageOrder == Numbers(s.pages) && |s.pages| > 0
  {
    if GridEvent(e) {
      GridEventsSendOnlyOcr(s, e);
    } else if DragEvent(e) {
      DragEventsKeepPath(s, e);
    } else if SaveEvent(e) {
      SaveEventsReorderAll(s, e);
    } else {
      TextEventsSendNoReorder(s, e);
    }
  }

  lemma GridEventsSendOnlyOcr(s: Session, e: Event)
    requires GridEvent(e)
    ensures HandleGrid(s, e).next.pdfPath == s.pdfPath
    ensures HandleGrid(s, e).request.Some? ==> HandleGrid(s, e).request.value.OcrRequest?
  {
  }

  lemma DragEventsKeepPath(s: Session, e: Event)
    requires DragEvent(e)
    ensures HandleDrag(s, e).pdfPath == s.pdfPath
  {
  }

  lemma SaveEventsReorderAll(s: Session, e: Event)
    requires SaveEvent(e)
    ensures HandleSave(s, e).next.pdfPath == s.pdfPath
    ensures var o := HandleSave(s, e);
      o.request.Some? ==> o.request.value.ReorderRequest? && o.request.value.inputPath == s.pdfPath && o.request.value.pageOrder == Numbers(s.pages) && |s.pages| > 0
  {
    match e
    case TimerExpired(id, now) =>
    case SaveClicked(now) =>
    case SaveAnswered(show, ok) =>
  }

  lemma TextEventsSendNoReorder(s: Session, e: Event)
    requires TextEvent(e)
    ensures HandleText(s, e).next.pdfPath == s.pdfPath
    ensures HandleText(s, e).request.Some? ==> !HandleText(s, e).request.value.ReorderRequest?
  {
    TextEventsKeepCards(s, e);
    match e
    case CommitAnswered(d, p, reply) => CommitFinishedKeepsCards(s, d, p, reply);
    case _ =>
  }

  lemma DragEndValid(s: Session)
    requires Valid(s)
    ensures Valid(DragEnd(s))
  {
  }

  lemma DropValid(s: Session, t: int)
    requires Valid(s)
    ensures Valid(Drop(s, t))
  {
    if s.dragged.Some? {
      MovePreservesArrangement(s.pages, s.dragged.value, t);
      MovePreservesQuarterTurns(s.pages, s.dragged.value, t);
    }
  }

  /** Every event keeps the timer bookkeeping and the card arrangement. */
  lemma StepPreservesValid(s: Session, e: Event)
    requires Valid(s)
    ensures Valid(Step(s, e).next)
  {
    if Available(s, e) {
      if GridEvent(e) {
        GridEventsKeepValid(s, e);
      } else if DragEvent(e) {
        DragEventsKeepValid(s, e);
      } else if SaveEvent(e) {
        SaveEventsKeepValid(s, e);
      } else {
        TextEventsKeepValid(s, e);
      }
    }
  }

  /** Two states with the same cards and the same timer bookkeeping. */
  predicate SameCardsAndTimers(s: Session, r: Session) {
    r.pdfPath == s.pdfPath && r.pages == s.pages && r.nextTimerId == s.nextTimerId && r.saveTimeout == s.saveTimeout && r.armed == s.armed
  }

  lemma SameCardsKeepValid(s: Session, r: Session)
    requires Valid(s) && SameCardsAndTimers(s, r)
    ensures Valid(r)
  {
  }

  /** Loading rebuilds the cards as an arrangement and rotating keeps them
      one; selection touches neither cards nor timers. */
  lemma GridEventsKeepValid(s: Session, e: Event)
    requires Valid(s) && GridEvent(e)
    ensures Valid(HandleGrid(s, e).next)
  {
    match e
    case PagesArrived(n, thumbs) => LoadedPagesAreArranged(n, thumbs);
    case RotateClicked(n) => QuarterTurnCycle(s.pages, n);
    case LoadFailed =>
    case CardClicked(n) => SameCardsKeepValid(s, TogglePage(s, n));
  }

  /** Dropping rearranges the cards and ending a drag re-arms the autosave;
      the hover events touch neither cards nor timers. */
  lemma DragEventsKeepValid(s: Session, e: Event)
    requires Valid(s) && DragEvent(e)
    ensures Valid(HandleDrag(s, e))
  {
    match e
    case Dropped(t) => DropValid(s, t);
    case DragEnded => DragEndValid(s);
    case DragStarted(n) => SameCardsKeepValid(s, DragStart(s, n));
    case DraggedOver(n) => SameCardsKeepValid(s, DragOver(s, n));
    case DragLeft(leftCard) => SameCardsKeepValid(s, DragLeave(s, leftCard));
  }

  /** Saving can only disarm the autosave it runs. */
  lemma SaveEventsKeepValid(s: Session, e: Event)
    requires Valid(s) && SaveEvent(e)
    ensures Valid(HandleSave(s, e).next)
  {
    match e
    case TimerExpired(id, now) =>
      if id in s.armed {
        var disarmed := s.(armed := s.armed - {id});
        assert Valid(disarmed);
        SameCardsKeepValid(disarmed, SaveChanges(disarmed, now).next);
      }
    case SaveClicked(now) => SameCardsKeepValid(s, SaveChanges(s, now).next);
    case SaveAnswered(show, ok) => SameCardsKeepValid(s, SaveFinished(s, show, ok));
  }

  /** The text events leave the cards and the timers alone. */
  lemma TextEventsKeepValid(s: Session, e: Event)
    requires Valid(s) && TextEvent(e)
    ensures Valid(HandleText(s, e).next)
  {
    TextEventsKeepCards(s, e);
    SameCardsKeepValid(s, HandleText(s, e).next);
  }

  lemma TextEventsKeepCards(s: Session, e: Event)
    requires TextEvent(e)
    ensures SameCardsAndTimers(s, HandleText(s, e).next)
  {
    match e
    case ExtractClicked =>
    case ExtractAnswered(reply) =>
    case ClearClicked =>
    case EditClicked =>
    case DraftTyped(text) =>
    case CancelClicked =>
    case CommitClicked(now) => CommitClickKeepsCards(s, now);
    case CommitAnswered(d, p, reply) => CommitFinishedKeepsCards(s, d, p, reply);
    case ToastTimedOut =>
  }

  lemma CommitClickKeepsCards(s: Session, now: nat)
    ensures SameCardsAndTimers(s, CommitClick(s, now).next)
  {
  }

  lemma CommitFinishedKeepsCards(s: Session, d: string, p: string, reply: CommitReply)
    ensures SameCardsAndTimers(s, CommitFinished(s, d, p, reply))
  {
  }

  lemma {:induction false} RunPreservesValid(s: Session, events: seq<Event>)
    requires Valid(s)
    ensures Valid(Run(s, events).0)
    decreases |events|
  {
    if |events| > 0 {
      StepPreservesValid(s, events[0]);
      RunPreservesValid(Step(s, events[0]).next, events[1..]);
    }
  }

  /** After any drag end exactly one autosave is pending: the new 3 s timer. */
  lemma DragEndArmsExactlyOneTimer(s: Session)
    requires Valid(s)
    ensures DragEnd(s).armed == map[s.nextTimerId := AutosaveDelayMs]
  {
    var r := DragEnd(s);
    assert r.armed.Keys == {s.nextTimerId};
  }

  /** Two drag ends in a row: the first autosave is cancelled, so its expiry
      does nothing, and only the second one saves. */
  lemma DebounceCoalesces(s: Session, ts: nat)
    requires Valid(s)
    ensures var s1 := DragEnd(s);
      var s2 := DragEnd(s1);
      && s2.armed == map[s1.nextTimerId := AutosaveDelayMs]
      && TimerFired(s2, s.nextTimerId, ts) == Outcome(s2, None)
  {
    var s1 := DragEnd(s);
    DragEndArmsExactlyOneTimer(s);
    DragEndArmsExactlyOneTimer(s1);
  }

  /** Two cards of `a.pdf` just dragged: unsaved, not saving, autosave 1 armed. */
  function OverlapStart(): Session {
    DragEnd(Init("a.pdf").(pages := LoadPages(2, None)))
  }

  lemma OverlapStartArmed()
    ensures OverlapStart().armed == map[1 := AutosaveDelayMs]
    ensures SaveButtonEnabled(OverlapStart()) && |OverlapStart().pages| == 2
  {
    var s0 := OverlapStart();
    assert s0.armed.Keys == {1};
  }

  /** Nothing stops an autosave from firing while a manual save is still
      running: the timer sends a second reorder request. */
  lemma AutosaveCanOverlapManualSave()
    ensures var s0 := DragEnd(Init("a.pdf").(pages := LoadPages(2, None)));
      var manual := Step(s0, SaveClicked(10));
      && manual.request.Some? && manual.next.isSaving
      && Step(manual.next, TimerExpired(1, 20)).request.Some?
  {
    OverlapStartArmed();
    var manual := Step(OverlapStart(), SaveClicked(10));
    assert manual.next == OverlapStart().(isSaving := true);
    assert 1 in manual.next.armed;
  }

  /** Rotating a card never reaches the backend: it does not mark the
      document unsaved, and a save after it sends exactly what a save
      without it would. */
  lemma RotationNotPersisted(s: Session, n: int, ts: nat)
    ensures RotateClick(s, n).unsaved == s.unsaved
    ensures SaveChanges(RotateClick(s, n), ts).request == SaveChanges(s, ts).request
  {
  }

  /** No event ever points the editor at another file, not even a save that
      wrote one. */
  lemma {:induction false} PathNeverChanges(s: Session, events: seq<Event>)
    ensures Run(s, events).0.pdfPath == s.pdfPath
    ensures forall k :: 0 <= k < |Run(s, events).1| && Run(s, events).1[k].ReorderRequest? ==>
      Run(s, events).1[k].inputPath == s.pdfPath
    decreases |events|
  {
    if |events| > 0 {
      var first := Step(s, events[0]);
      PathNeverChanges(first.next, events[1..]);
    }
  }

  /** Edit, then commit, then success: the extracted text becomes the draft
      as it was at the click, even if it was typed over while waiting. */
  lemma CommitRoundTrip(s: Session, ts: nat, typedLater: string, total: Option<nat>)
    requires s.ocrText != "" && !s.editing
    ensures var editing := EditClick(s);
      var commit := CommitClick(editing, ts);
      var req := commit.request.value;
      var typed := DraftChanged(commit.next, typedLater);
      var done := CommitFinished(typed, req.newContent, req.outputPath, Committed(total));
      && req.oldContent == s.ocrText && req.newContent == s.ocrText
      && done.ocrText == s.ocrText && !done.editing && !done.isSaving
  {
  }

  /** Edit, type, commit, failure: still editing, the typed draft kept, the
      extracted text untouched. */
  lemma CommitFailureKeepsDraft(s: Session, text: string, ts: nat, err: string)
    ensures var typed := DraftChanged(EditClick(s), text);
      var commit := CommitClick(typed, ts);
      var req := commit.request.value;
      var done := CommitFinished(commit.next, req.newContent, req.outputPath, CommitCallFailed(err));
      && req.newContent == text
      && done.editing && done.draft == text && done.ocrText == s.ocrText
  {
  }

  /** Edit then cancel keeps the extracted text and discards the draft. */
  lemma EditCancelKeepsText(s: Session, text: string)
    ensures var r := CancelEdit(DraftChanged(EditClick(s), text));
      r.ocrText == s.ocrText && !r.editing && r.draft == ""
  {
  }

  lemma RunOne(s: Session, e: Event)
    ensures Run(s, [e]) == (Step(s, e).next, if Step(s, e).request.Some? then [Step(s, e).request.value] else [])
  {
    assert [e][1..] == [];
    var first := Step(s, e);
    var calls := if first.request.Some? then [first.request.value] else [];
    assert Run(first.next, []) == (first.next, []);
    assert Run(s, [e]) == (first.next, calls + []);
    assert calls + [] == calls;
  }

  /** An event that makes no backend call adds nothing to the collected calls. */
  lemma RunQuiet(s: Session, events: seq<Event>)
    requires |events| > 0 && Step(s, events[0]).request.None?
    ensures Run(s, events) == Run(Step(s, events[0]).next, events[1..])
  {
    var rest := Run(Step(s, events[0]).next, events[1..]);
    assert Run(s, events) == (rest.0, [] + rest.1);
    assert [] + rest.1 == rest.1;
  }

  /** A `.PDF` ending in upper case is matched and replaced too. */
  lemma UpperCaseExtensionReplaced()
    ensures TimestampedPath("C:\\docs\\scan.PDF", "_reordered_", 42) == "C:\\docs\\scan_reordered_42.pdf"
  {
    ScanPathEndsWithPdf();
    FortyTwo();
    assert TimestampedPath(ScanPath, "_reordered_", 42) == "C:\\docs\\scan" + "_reordered_" + "42" + ".pdf";
  }

  lemma ScanPathEndsWithPdf()
    ensures EndsWithPdfIgnoreCase(ScanPath) && ScanPath[..|ScanPath| - 4] == "C:\\docs\\scan"
  {
    assert ScanPath[|ScanPath| - 4..] == ".PDF";
    assert Lower(".PDF") == ".pdf";
  }

  lemma FortyTwo()
    ensures NatToString(42) == "42"
  {
    assert NatToString(4) == "4";
  }

  /** Moving the last of five fresh cards onto the first. */
  lemma LastOfFiveToFront()
    ensures Numbers(MovePage(LoadPages(5, None), 5, 1)) == [5, 1, 2, 3, 4]
  {
    var pages := LoadPages(5, None);
    assert Numbers(pages) == [1, 2, 3, 4, 5];
    assert FindPage(pages, 5) == Some(4) by {
      assert pages[4].number == 5;
      assert FindPage(pages[4..], 5) == Some(0);
      assert FindPage(pages[3..], 5) == Some(1) by { assert pages[3..][1..] == pages[4..]; }
      assert FindPage(pages[2..], 5) == Some(2) by { assert pages[2..][1..] == pages[3..]; }
      assert FindPage(pages[1..], 5) == Some(3) by { assert pages[1..][1..] == pages[2..]; }
    }
    assert FindPage(pages, 1) == Some(0);
    var r := MovePage(pages, 5, 1);
    assert r == InsertAt(RemoveAt(pages, 4), 0, pages[4]);
    assert r[0].number == 5 && r[1].number == 1 && r[2].number == 2 && r[3].number == 3 && r[4].number == 4;
    assert Numbers(r) == [5, 1, 2, 3, 4];
  }

  const ScanPath: string := "C:\\docs\\scan.PDF"

  /** The states the scenario below passes through. */
  function ScenarioLoaded(): Session {
    Init(ScanPath).(pages := LoadPages(5, None))
  }

  function ScenarioHovering(): Session {
    ScenarioLoaded().(dragged := Some(5), dragOver := Some(1))
  }

  function ScenarioDropped(): Session {
    ScenarioLoaded().(dragged := Some(5), pages := MovePage(LoadPages(5, None), 5, 1))
  }

  lemma ScenarioLoadStep()
    ensures Step(Init(ScanPath), PagesArrived(5, None)) == Outcome(ScenarioLoaded(), None)
  {
  }

  lemma ScenarioHoverSteps()
    ensures var s := Step(ScenarioLoaded(), DragStarted(5));
      s.request.None? && Step(s.next, DraggedOver(1)) == Outcome(ScenarioHovering(), None)
  {
  }

  lemma ScenarioDropStep()
    ensures Step(ScenarioHovering(), Dropped(1)) == Outcome(ScenarioDropped(), None)
  {
    ScenarioDrop();
  }

  lemma ScenarioDrop()
    ensures Drop(ScenarioHovering(), 1) == ScenarioDropped()
  {
    assert FindPage(LoadPages(5, None), 5).Some? by {
      assert LoadPages(5, None)[4].number == 5;
    }
    assert FindPage(LoadPages(5, None), 1) == Some(0);
  }

  lemma ScenarioEndStep()
    ensures Step(ScenarioDropped(), DragEnded) == Outcome(DragEnd(ScenarioDropped()), None)
    ensures DragEnd(ScenarioDropped()).armed == map[1 := AutosaveDelayMs]
  {
  }

  lemma ScenarioTimerStep()
    ensures var o := Step(DragEnd(ScenarioDropped()), TimerExpired(1, 42));
      && o.request == Some(ReorderRequest(ScanPath, "C:\\docs\\scan_reordered_42.pdf", [5, 1, 2, 3, 4]))
      && o.next.isSaving && o.next.armed == map[] && o.next.pages == ScenarioDropped().pages
  {
    LastOfFiveToFront();
    UpperCaseExtensionReplaced();
    ScenarioEndStep();
  }

  /** The requests the scenario ends with and the state it ends in. */
  const ScenarioRequest: Request := ReorderRequest(ScanPath, "C:\\docs\\scan_reordered_42.pdf", [5, 1, 2, 3, 4])

  function ScenarioFinal(): (Session, seq<Request>) {
    (Step(DragEnd(ScenarioDropped()), TimerExpired(1, 42)).next, [ScenarioRequest])
  }

  lemma ScenarioRunFromEnd()
    ensures Run(DragEnd(ScenarioDropped()), [TimerExpired(1, 42)]) == ScenarioFinal()
  {
    RunOne(DragEnd(ScenarioDropped()), TimerExpired(1, 42));
    ScenarioTimerStep();
  }

  lemma ScenarioRunFromDrop()
    ensures Run(ScenarioDropped(), [DragEnded, TimerExpired(1, 42)]) == ScenarioFinal()
  {
    var events := [DragEnded, TimerExpired(1, 42)];
    ScenarioEndStep();
    RunQuiet(ScenarioDropped(), events);
    assert events[1..] == [TimerExpired(1, 42)];
    ScenarioRunFromEnd();
  }

  lemma ScenarioRunFromHover()
    ensures Run(ScenarioHovering(), [Dropped(1), DragEnded, TimerExpired(1, 42)]) == ScenarioFinal()
  {
    var events := [Dropped(1), DragEnded, TimerExpired(1, 42)];
    ScenarioDropStep();
    RunQuiet(ScenarioHovering(), events);
    assert events[1..] == [DragEnded, TimerExpired(1, 42)];
    ScenarioRunFromDrop();
  }

  lemma ScenarioRunFromLoad()
    ensures Run(ScenarioLoaded(), [DragStarted(5), DraggedOver(1), Dropped(1), DragEnded, TimerExpired(1, 42)]) == ScenarioFinal()
  {
    var events := [DragStarted(5), DraggedOver(1), Dropped(1), DragEnded, TimerExpired(1, 42)];
    ScenarioHoverSteps();
    var s2 := Step(ScenarioLoaded(), DragStarted(5)).next;
    RunQuiet(ScenarioLoaded(), events);
    assert events[1..] == [DraggedOver(1), Dropped(1), DragEnded, TimerExpired(1, 42)];
    RunQuiet(s2, events[1..]);
    assert events[1..][1..] == [Dropped(1), DragEnded, TimerExpired(1, 42)];
    ScenarioRunFromHover();
  }

  /** Five loaded pages; the last card is dragged onto the first and the drag
      ends; when the autosave fires it sends the order 5, 1, 2, 3, 4 for a
      file whose `.PDF` ending is replaced by a timestamped one. */
  lemma MoveLastToFrontScenario()
    ensures var events := [PagesArrived(5, None), DragStarted(5), DraggedOver(1), Dropped(1), DragEnded, TimerExpired(1, 42)];
      var (s, requests) := Run(Init(ScanPath), events);
      && Numbers(s.pages) == [5, 1, 2, 3, 4]
      && requests == [ReorderRequest(ScanPath, "C:\\docs\\scan_reordered_42.pdf", [5, 1, 2, 3, 4])]
      && s.isSaving && s.armed == map[]
  {
    var events := [PagesArrived(5, None), DragStarted(5), DraggedOver(1), Dropped(1), DragEnded, TimerExpired(1, 42)];
    ScenarioLoadStep();
    RunQuiet(Init(ScanPath), events);
    assert events[1..] == [DragStarted(5), DraggedOver(1), Dropped(1), DragEnded, TimerExpired(1, 42)];
    ScenarioRunFromLoad();
    ScenarioFinalState();
  }

  lemma ScenarioFinalState()
    ensures var (s, requests) := ScenarioFinal();
      && Numbers(s.pages) == [5, 1, 2, 3, 4]
      && requests == [ReorderRequest(ScanPath, "C:\\docs\\scan_reordered_42.pdf", [5, 1, 2, 3, 4])]
      && s.isSaving && s.armed == map[]
  {
    ScenarioTimerStep();
    LastOfFiveToFront();
  }
}
