/**
 * The split dialog: a set of chosen page numbers edited by single toggles,
 * by a typed range, by "select all" and "clear", and submitted as an
 * ascending list. Alerts are the error values; the two range fields are the
 * raw text typed into them.
 */
module SplitModal {
  import opened Wrappers
  import opened Strings
  import opened EditorPages

  /** The dialog's state: the chosen pages and the text of both range
      fields. */
  datatype SplitForm = SplitForm(selected: set<int>, rangeStart: string, rangeEnd: string)

  const EmptyForm: SplitForm := SplitForm({}, "", "")

  /** `togglePage`: the same flip as the editor's card selection. */
  function TogglePage(f: SplitForm, page: int): (r: SplitForm)
    ensures page in r.selected <==> page !in f.selected
    ensures forall m :: m != page ==> (m in r.selected <==> m in f.selected)
    ensures r.rangeStart == f.rangeStart && r.rangeEnd == f.rangeEnd
  {
    f.(selected := ToggleSelection(f.selected, page))
  }

  lemma TogglePageTwice(f: SplitForm, page: int)
    ensures TogglePage(TogglePage(f, page), page) == f
  {
    ToggleTwiceRestores(f.selected, page);
  }

  /** The range the two fields describe, when it is acceptable: both parse
      as integers and 1 <= start <= end <= the page count. */
  function ValidRange(f: SplitForm, totalPages: int): (r: Option<(int, int)>)
    ensures r.Some? ==> 1 <= r.value.0 <= r.value.1 <= totalPages
    ensures r.Some? <==> (JsParseInt(f.rangeStart).Some? && JsParseInt(f.rangeEnd).Some?
      && 1 <= JsParseInt(f.rangeStart).value <= JsParseInt(f.rangeEnd).value <= totalPages)
  {
    match (JsParseInt(f.rangeStart), JsParseInt(f.rangeEnd))
    case (Some(start), Some(end)) =>
      if start < 1 || end > totalPages || start > end then None else Some((start, end))
    case _ => None
  }

  /** `selectRange`: an unacceptable range is refused with an alert and
      changes nothing; an acceptable one adds every page from start to end,
      one at a time as the loop in the dialog does, and keeps the earlier
      choices. */
  method SelectRange(f: SplitForm, totalPages: int) returns (r: Result<SplitForm, string>)
    ensures ValidRange(f, totalPages).None? ==> r == Err("Invalid range")
    ensures ValidRange(f, totalPages).Some? ==> (r.Ok?
      && r.value.rangeStart == f.rangeStart && r.value.rangeEnd == f.rangeEnd
      && var (start, end) := ValidRange(f, totalPages).value;
         forall k :: k in r.value.selected <==> k in f.selected || start <= k <= end)
  {
    var range := ValidRange(f, totalPages);
    if range.None? {
      return Err("Invalid range");
    }
    var (start, end) := range.value;
    var selected := f.selected;
    var i := start;
    while i <= end
      invariant start <= i <= end + 1
      invariant forall k :: k in selected <==> k in f.selected || start <= k < i
    {
      selected := selected + {i};
      i := i + 1;
    }
    return Ok(f.(selected := selected));
  }

  /** `selectAll`: every page from 1 to the page count, added one by one. */
  method SelectAll(f: SplitForm, totalPages: int) returns (r: SplitForm)
    ensures forall k :: k in r.selected <==> 1 <= k <= totalPages
    ensures r.rangeStart == f.rangeStart && r.rangeEnd == f.rangeEnd
  {
    var all: set<int> := {};
    var i := 1;
    while i <= totalPages
      invariant 1 <= i <= if totalPages >= 1 then totalPages + 1 else 1
      invariant forall k :: k in all <==> 1 <= k < i
    {
      all := all + {i};
      i := i + 1;
    }
    return f.(selected := all);
  }

  /** `clearAll`: nothing chosen; the range fields stay. */
  function ClearAll(f: SplitForm): (r: SplitForm)
    ensures r.selected == {} && r.rangeStart == f.rangeStart && r.rangeEnd == f.rangeEnd
  {
    f.(selected := {})
  }

  /** `handleClose`: the choice and both fields are reset. */
  function Close(f: SplitForm): (r: SplitForm)
    ensures r.selected == {} && r.rangeStart == "" && r.rangeEnd == ""
  {
    EmptyForm
  }

  predicate StrictlyIncreasing(s: seq<int>) {
    forall i, j :: 0 <= i < j < |s| ==> s[i] < s[j]
  }

  lemma NoMemberIsEmpty(s: set<int>)
    requires forall z :: z !in s
    ensures s == {}
  {
    var e: set<int> := {};
    assert forall z :: z in s <==> z in e;
  }

  lemma SomeMember(s: set<int>) returns (y: int)
    requires s != {}
    ensures y in s
  {
    if forall z :: z !in s {
      NoMemberIsEmpty(s);
      assert false;
    }
    y :| y in s;
  }

  /** Every non-empty set of integers has a least element. */
  lemma {:induction false} LeastOf(s: set<int>) returns (m: int)
    requires s != {}
    ensures m in s && forall x :: x in s ==> m <= x
    decreases |s|
  {
    var y := SomeMember(s);
    var rest := s - {y};
    assert forall x :: x in s ==> x == y || x in rest;
    if rest == {} {
      m := y;
    } else {
      var m' := LeastOf(rest);
      m := if y < m' then y else m';
    }
  }

  /** `Array.from(selected).sort((a, b) => a - b)`: the chosen pages in
      ascending order, built by taking the least remaining one each time. */
  method SortedPages(selected: set<int>) returns (pages: seq<int>)
    ensures StrictlyIncreasing(pages)
    ensures forall k :: k in pages <==> k in selected
    ensures |pages| == |selected|
  {
    pages := [];
    var rest := selected;
    while rest != {}
      invariant rest <= selected
      invariant StrictlyIncreasing(pages)
      invariant forall k :: k in selected <==> k in pages || k in rest
      invariant forall k :: k in pages ==> k !in rest
      invariant forall i, x :: 0 <= i < |pages| && x in rest ==> pages[i] < x
      invariant |pages| + |rest| == |selected|
      decreases |rest|
    {
      ghost var least := LeastOf(rest);
      assert least in rest && forall x :: x in rest ==> least <= x;
      var m :| m in rest && forall x :: x in rest ==> m <= x;
      pages := pages + [m];
      rest := rest - {m};
    }
  }

  /** `handleSubmit`: an empty choice is refused with an alert and nothing
      is submitted; otherwise the ascending pages are submitted and the
      dialog resets. */
  datatype SubmitOutcome = SubmitOutcome(submitted: Option<seq<int>>, alert: Option<string>, form: SplitForm)

  method Submit(f: SplitForm) returns (r: SubmitOutcome)
    ensures f.selected == {} <==> r.submitted.None?
    ensures f.selected == {} ==> r.alert == Some("Please select at least one page") && r.form == f
    ensures f.selected != {} ==> (r.alert.None? && r.form == EmptyForm
      && StrictlyIncreasing(r.submitted.value)
      && forall k :: k in r.submitted.value <==> k in f.selected)
  {
    if |f.selected| == 0 {
      return SubmitOutcome(None, Some("Please select at least one page"), f);
    }
    var pages := SortedPages(f.selected);
    return SubmitOutcome(Some(pages), None, Close(f));
  }
}
