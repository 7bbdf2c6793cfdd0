/**
 * The page cards of the document editor: loading them from the page count
 * and thumbnail list, selecting, rotating and moving them, and the reader of
 * the PDF creation date shown in the details panel.
 */
module EditorPages {
  import opened Wrappers
  import opened Strings
  import opened JsMath
  import opened Seqs

  /** One page card. `number` is the page's position in the document as it
      was loaded; after a move, display order is the position in the
      sequence, not the number. */
  datatype Page = Page(number: int, rotation: int, thumbnail: Option<string>)

  /** One entry of the backend's thumbnail list. */
  datatype ThumbEntry = ThumbEntry(page: int, image: string)

  /** The page numbers in display order: what a save sends to the backend. */
  function Numbers(pages: seq<Page>): (r: seq<int>)
    ensures |r| == |pages|
    ensures forall i :: 0 <= i < |pages| ==> r[i] == pages[i].number
  {
    seq(|pages|, i requires 0 <= i < |pages| => pages[i].number)
  }

  /** 1, 2, ..., n. */
  function Iota(n: nat): (r: seq<int>)
    ensures |r| == n
    ensures forall i :: 0 <= i < n ==> r[i] == i + 1
  {
    seq(n, i => i + 1)
  }

  /** The display order is a rearrangement of 1..N, with N the number of cards. */
  predicate IsArrangement(pages: seq<Page>) {
    multiset(Numbers(pages)) == multiset(Iota(|pages|))
  }

  predicate IsQuarterTurn(r: int) {
    r == 0 || r == 90 || r == 180 || r == 270
  }

  predicate AllQuarterTurns(pages: seq<Page>) {
    forall i :: 0 <= i < |pages| ==> IsQuarterTurn(pages[i].rotation)
  }

  // ---------------------------------------------------------------------------
  // Loading

  /** `thumbnails.find(t => t.page === n)`: the first entry for page `n`. */
  function FindThumb(entries: seq<ThumbEntry>, n: int): (r: Option<nat>)
    ensures r.None? ==> forall k :: 0 <= k < |entries| ==> entries[k].page != n
    ensures r.Some? ==> r.value < |entries| && entries[r.value].page == n
    ensures r.Some? ==> forall k :: 0 <= k < r.value ==> entries[k].page != n
    decreases |entries|
  {
    if |entries| == 0 then None
    else if entries[0].page == n then Some(0)
    else match FindThumb(entries[1..], n)
      case None => None
      case Some(k) => Some(k + 1)
  }

  /** The image of the first entry for page `n`, or no thumbnail. */
  function ThumbFor(entries: seq<ThumbEntry>, n: int): (r: Option<string>)
    ensures r.None? <==> forall k :: 0 <= k < |entries| ==> entries[k].page != n
    ensures r.Some? ==> exists k :: 0 <= k < |entries| && entries[k].page == n && entries[k].image == r.value &&
                               (forall j :: 0 <= j < k ==> entries[j].page != n)
  {
    match FindThumb(entries, n)
    case None => None
    case Some(k) => Some(entries[k].image)
  }

  /** The cards built after the page count arrives: pages 1..pageCount in
      order, unrotated. With a thumbnail list each card carries the image of
      the first entry for its page; when thumbnail generation reported an
      error (`entries` is `None`) no card has one. */
  function LoadPages(pageCount: int, entries: Option<seq<ThumbEntry>>): (pages: seq<Page>)
    ensures |pages| == if pageCount > 0 then pageCount else 0
    ensures Numbers(pages) == Iota(|pages|)
    ensures forall i :: 0 <= i < |pages| ==> pages[i].rotation == 0
    ensures entries.None? ==> forall i :: 0 <= i < |pages| ==> pages[i].thumbnail.None?
    ensures entries.Some? ==> forall i :: 0 <= i < |pages| ==> pages[i].thumbnail == ThumbFor(entries.value, i + 1)
  {
    var n := if pageCount > 0 then pageCount else 0;
    var pages := seq(n, i requires 0 <= i < n =>
      Page(i + 1, 0, if entries.Some? then ThumbFor(entries.value, i + 1) else None));
    assert Numbers(pages) == Iota(n);
    pages
  }

  /** Freshly loaded cards are an arrangement of 1..N, all unrotated. */
  lemma LoadedPagesAreArranged(pageCount: int, entries: Option<seq<ThumbEntry>>)
    ensures IsArrangement(LoadPages(pageCount, entries))
    ensures AllQuarterTurns(LoadPages(pageCount, entries))
  {
  }

  // ---------------------------------------------------------------------------
  // Selection

  /** Adds the page number to the selection when it is absent and removes it
      when it is present. */
  function ToggleSelection(selected: set<int>, n: int): (r: set<int>)
    ensures n in r <==> n !in selected
    ensures forall m :: m != n ==> (m in r <==> m in selected)
  {
    if n in selected then selected - {n} else selected + {n}
  }

  /** Toggling the same page twice restores the selection. */
  lemma ToggleTwiceRestores(selected: set<int>, n: int)
    ensures ToggleSelection(ToggleSelection(selected, n), n) == selected
  {
  }

  // ---------------------------------------------------------------------------
  // Rotation

  /** Adds `degrees` to the rotation of every card with number `n`, keeping
      the JavaScript remainder by 360; every other card is untouched. */
  function RotatePage(pages: seq<Page>, n: int, degrees: int): (r: seq<Page>)
    ensures |r| == |pages|
    ensures Numbers(r) == Numbers(pages)
    ensures forall i :: 0 <= i < |pages| && pages[i].number != n ==> r[i] == pages[i]
    ensures forall i :: 0 <= i < |pages| && pages[i].number == n ==>
      r[i].thumbnail == pages[i].thumbnail && -360 < r[i].rotation < 360 &&
      (pages[i].rotation + degrees - r[i].rotation) % 360 == 0 &&
      (pages[i].rotation + degrees >= 0 ==> r[i].rotation >= 0) &&
      (pages[i].rotation + degrees <= 0 ==> r[i].rotation <= 0)
  {
    seq(|pages|, i requires 0 <= i < |pages| =>
      if pages[i].number == n
      then pages[i].(rotation := JsRem(pages[i].rotation + degrees, 360))
      else pages[i])
  }

  /** The rotate button turns a card by 90 degrees: a quarter turn stays a
      quarter turn, following 0, 90, 180, 270, 0. */
  lemma QuarterTurnCycle(pages: seq<Page>, n: int)
    requires AllQuarterTurns(pages)
    ensures AllQuarterTurns(RotatePage(pages, n, 90))
    ensures forall i :: 0 <= i < |pages| && pages[i].number == n ==>
      RotatePage(pages, n, 90)[i].rotation == (pages[i].rotation + 90) % 360
  {
  }

  /** Four quarter turns bring a quarter-turn angle back to itself. */
  lemma FourQuarterTurnsOfAngle(q: int)
    requires IsQuarterTurn(q)
    ensures JsRem(JsRem(JsRem(JsRem(q + 90, 360) + 90, 360) + 90, 360) + 90, 360) == q
  {
  }

  /** Four presses of the rotate button on the same card are the identity. */
  lemma FourQuarterTurnsAreIdentity(pages: seq<Page>, n: int)
    requires AllQuarterTurns(pages)
    ensures RotatePage(RotatePage(RotatePage(RotatePage(pages, n, 90), n, 90), n, 90), n, 90) == pages
  {
    var p1 := RotatePage(pages, n, 90);
    var p2 := RotatePage(p1, n, 90);
    var p3 := RotatePage(p2, n, 90);
    var p4 := RotatePage(p3, n, 90);
    forall i | 0 <= i < |pages|
      ensures p4[i] == pages[i]
    {
      if pages[i].number == n {
        FourQuarterTurnsOfAngle(pages[i].rotation);
      }
    }
  }

  // ---------------------------------------------------------------------------
  // Moving a card (drag and drop)

  /** `pages.findIndex(p => p.number === n)`: the first card with number `n`. */
  function FindPage(pages: seq<Page>, n: int): (r: Option<nat>)
    ensures r.None? ==> forall k :: 0 <= k < |pages| ==> pages[k].number != n
    ensures r.Some? ==> r.value < |pages| && pages[r.value].number == n
    ensures r.Some? ==> forall k :: 0 <= k < r.value ==> pages[k].number != n
    decreases |pages|
  {
    if |pages| == 0 then None
    else if pages[0].number == n then Some(0)
    else match FindPage(pages[1..], n)
      case None => None
      case Some(k) => Some(k + 1)
  }

  /** The drop handler's splice pair: the dragged card is taken out and put
      back in at the index the target card had before the removal. Absent
      cards leave the order unchanged. */
  function MovePage(pages: seq<Page>, dragged: int, target: int): (r: seq<Page>)
    ensures |r| == |pages|
    ensures multiset(r) == multiset(pages)
  {
    match (FindPage(pages, dragged), FindPage(pages, target))
    case (Some(d), Some(t)) =>
      var rest := RemoveAt(pages, d);
      MoveIsPermutation(pages, d, t);
      InsertAt(rest, t, pages[d])
    case _ => pages
  }

  lemma MoveIsPermutation<T>(s: seq<T>, d: nat, t: nat)
    requires d < |s| && t < |s|
    ensures multiset(InsertAt(RemoveAt(s, d), t, s[d])) == multiset(s)
  {
    var rest := RemoveAt(s, d);
    assert s == s[..d] + [s[d]] + s[d + 1..];
    assert rest == rest[..t] + rest[t..];
    calc {
      multiset(InsertAt(rest, t, s[d]));
      multiset(rest[..t]) + multiset([s[d]]) + multiset(rest[t..]);
      multiset(rest) + multiset([s[d]]);
      multiset(s[..d]) + multiset(s[d + 1..]) + multiset([s[d]]);
      multiset(s);
    }
  }

  /** Inserting at `t` and removing at `t` cancel out. */
  lemma RemoveInserted<T>(s: seq<T>, t: nat, x: T)
    requires t <= |s|
    ensures RemoveAt(InsertAt(s, t, x), t) == s
    ensures InsertAt(s, t, x)[t] == x
  {
    var u := InsertAt(s, t, x);
    assert u[..t] == s[..t];
    assert u[t + 1..] == s[t..];
  }

  /** A drop of card `d` on a different card `t`, both present: the result
      is a rearrangement of the old order, `d` sits at the index `t` had,
      and removing `d` from both orders leaves the same sequence, so every
      other card keeps its relative order. */
  lemma MovePageSpec(pages: seq<Page>, d: int, t: int)
    requires FindPage(pages, d).Some? && FindPage(pages, t).Some?
    ensures var di := FindPage(pages, d).value;
      var ti := FindPage(pages, t).value;
      var r := MovePage(pages, d, t);
      && multiset(r) == multiset(pages)
      && r[ti] == pages[di]
      && r[ti].number == d
      && RemoveAt(r, ti) == RemoveAt(pages, di)
  {
    var di := FindPage(pages, d).value;
    var ti := FindPage(pages, t).value;
    RemoveInserted(RemoveAt(pages, di), ti, pages[di]);
  }

  /** Dropping a card on itself leaves the order alone. */
  lemma MovePageOntoItself(pages: seq<Page>, d: int)
    ensures MovePage(pages, d, d) == pages
  {
    match FindPage(pages, d)
    case Some(i) =>
      var r := InsertAt(RemoveAt(pages, i), i, pages[i]);
      forall k | 0 <= k < |pages|
        ensures r[k] == pages[k]
      {
        if k > i {
          assert r[k] == RemoveAt(pages, i)[k - 1];
        } else if k < i {
          assert r[k] == RemoveAt(pages, i)[k];
        }
      }
    case None =>
  }

  /** A drop leaves the order alone when either card is missing. */
  lemma MovePageAbsent(pages: seq<Page>, d: int, t: int)
    requires FindPage(pages, d).None? || FindPage(pages, t).None?
    ensures MovePage(pages, d, t) == pages
  {
  }

  lemma NumbersOfSplices(s: seq<Page>, d: nat, t: nat)
    requires d < |s| && t < |s|
    ensures Numbers(InsertAt(RemoveAt(s, d), t, s[d])) == InsertAt(RemoveAt(Numbers(s), d), t, s[d].number)
  {
    var a := InsertAt(RemoveAt(s, d), t, s[d]);
    var b := InsertAt(RemoveAt(Numbers(s), d), t, s[d].number);
    assert |Numbers(a)| == |b|;
    forall i | 0 <= i < |b| ensures Numbers(a)[i] == b[i] {
      var rest := RemoveAt(s, d);
      var nrest := RemoveAt(Numbers(s), d);
      assert forall j :: 0 <= j < |rest| ==> nrest[j] == rest[j].number;
    }
  }

  /** Moving a card keeps the display order an arrangement of 1..N. */
  lemma MovePreservesArrangement(pages: seq<Page>, d: int, t: int)
    requires IsArrangement(pages)
    ensures IsArrangement(MovePage(pages, d, t))
  {
    match (FindPage(pages, d), FindPage(pages, t))
    case (Some(di), Some(ti)) =>
      NumbersOfSplices(pages, di, ti);
      MoveIsPermutation(Numbers(pages), di, ti);
    case _ =>
  }

  /** A move does not turn any card. */
  lemma MovePreservesQuarterTurns(pages: seq<Page>, d: int, t: int)
    requires AllQuarterTurns(pages)
    ensures AllQuarterTurns(MovePage(pages, d, t))
  {
    var r := MovePage(pages, d, t);
    forall i | 0 <= i < |r| ensures IsQuarterTurn(r[i].rotation) {
      assert r[i] in multiset(pages);
    }
  }

  // ---------------------------------------------------------------------------
  // Creation date

  /** JavaScript `s.substring(from, to)`: both ends are clamped into
      [0, |s|] and swapped when out of order. */
  function JsSubstring(s: string, from: int, to: int): (r: string)
    ensures 0 <= from <= to <= |s| ==> r == s[from..to]
    ensures |r| <= |s|
  {
    var a := if from < 0 then 0 else if from > |s| then |s| else from;
    var b := if to < 0 then 0 else if to > |s| then |s| else to;
    if a <= b then s[a..b] else s[b..a]
  }

  /** `s[a..b]` with both ends cut back to the length of `s`. */
  function Clamped(s: string, a: nat, b: nat): (r: string)
    requires a <= b
    ensures b <= |s| ==> r == s[a..b]
    ensures |r| == (if b <= |s| then b - a else if a <= |s| then |s| - a else 0)
  {
    var hi := if b > |s| then |s| else b;
    var lo := if a > hi then hi else a;
    s[lo..hi]
  }

  /** The creation-date reader for PDF date strings (`D:YYYYMMDD...`,
      section 7.9.4 of ISO 32000-1): anything not starting with `D:` gives
      the empty string; otherwise the year, month and day fields are cut out
      by position and printed `DD/MM/YYYY`, without checking that they are
      digits and with fields clamped to what the string holds. */
  function ParsePdfDate(pdfDate: string): (r: string)
    ensures !StartsWith(pdfDate, "D:") ==> r == ""
    ensures StartsWith(pdfDate, "D:") && |pdfDate| >= 10 ==>
      r == pdfDate[8..10] + "/" + pdfDate[6..8] + "/" + pdfDate[2..6]
    ensures StartsWith(pdfDate, "D:") ==> |r| == 2 + (if |pdfDate| >= 10 then 8 else |pdfDate| - 2)
    ensures StartsWith(pdfDate, "D:") ==>
      var p := pdfDate[2..];
      r == Clamped(p, 6, 8) + "/" + Clamped(p, 4, 6) + "/" + Clamped(p, 0, 4)
  {
    if pdfDate == "" || !StartsWith(pdfDate, "D:") then ""
    else
      var dateStr := JsSubstring(pdfDate, 2, |pdfDate|);
      assert dateStr == pdfDate[2..];
      var year := JsSubstring(dateStr, 0, 4);
      var month := JsSubstring(dateStr, 4, 6);
      var day := JsSubstring(dateStr, 6, 8);
      assert |year| == if |dateStr| >= 4 then 4 else |dateStr|;
      assert |month| == if |dateStr| >= 6 then 2 else if |dateStr| >= 4 then |dateStr| - 4 else 0;
      assert |day| == if |dateStr| >= 8 then 2 else if |dateStr| >= 6 then |dateStr| - 6 else 0;
      assert |dateStr| >= 8 ==> year == pdfDate[2..6] && month == pdfDate[6..8] && day == pdfDate[8..10];
      assert year == Clamped(dateStr, 0, 4) && month == Clamped(dateStr, 4, 6) && day == Clamped(dateStr, 6, 8);
      day + "/" + month + "/" + year
  }

  /** The fields of a well-formed date come back in day/month/year order,
      whatever follows the day (time and time-zone fields). */
  lemma ParsePdfDateFields(year: string, month: string, day: string, rest: string)
    requires |year| == 4 && |month| == 2 && |day| == 2
    ensures ParsePdfDate("D:" + year + month + day + rest) == day + "/" + month + "/" + year
  {
    var s := "D:" + year + month + day + rest;
    assert StartsWith(s, "D:");
    assert s[2..6] == year && s[6..8] == month && s[8..10] == day;
  }

  /** A date cut short after the year leaves the day and month empty. */
  lemma ParsePdfDateTruncated()
    ensures ParsePdfDate("D:2022") == "//2022"
  {
    var s := "D:2022";
    assert StartsWith(s, "D:");
    var p := s[2..];
    assert p == "2022";
    assert Clamped(p, 6, 8) == "" && Clamped(p, 4, 6) == "" && Clamped(p, 0, 4) == "2022";
  }

}
