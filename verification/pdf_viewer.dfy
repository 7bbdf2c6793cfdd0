/**
 * The read-only viewer: zoom buttons clamped to [50, 200] in steps of 25,
 * a rotate button that turns the view a quarter at a time, a per-page image
 * cache that is consulted before asking the backend, and the page-number to
 * thumbnail map built from the backend's list. Backend answers are inputs.
 */
module PdfViewer {
  import opened Wrappers
  import opened JsMath

  const InitialZoom: int := 100
  const MinZoom: int := 50
  const MaxZoom: int := 200
  const ZoomStep: int := 25

  // ---------------------------------------------------------------------------
  // Zoom

  /** `handleZoomIn`: 25 more, at most 200. */
  function ZoomIn(zoom: int): (z: int)
    ensures z <= MaxZoom
    ensures zoom <= z || zoom > MaxZoom
  {
    if zoom + ZoomStep < MaxZoom then zoom + ZoomStep else MaxZoom
  }

  /** `handleZoomOut`: 25 less, at least 50. */
  function ZoomOut(zoom: int): (z: int)
    ensures z >= MinZoom
    ensures z <= zoom || zoom < MinZoom
  {
    if zoom - ZoomStep > MinZoom then zoom - ZoomStep else MinZoom
  }

  /** A zoom level the buttons can reach from the initial 100%. */
  predicate ZoomLevel(z: int) {
    MinZoom <= z <= MaxZoom && z % ZoomStep == 0
  }

  datatype ZoomButton = ZoomInButton | ZoomOutButton

  function ApplyZoom(zoom: int, buttons: seq<ZoomButton>): int
    decreases |buttons|
  {
    if |buttons| == 0 then zoom
    else ApplyZoom(if buttons[0].ZoomInButton? then ZoomIn(zoom) else ZoomOut(zoom), buttons[1..])
  }

  /** Each button keeps a reachable level reachable. */
  lemma ZoomButtonsKeepLevel(zoom: int)
    requires ZoomLevel(zoom)
    ensures ZoomLevel(ZoomIn(zoom)) && ZoomLevel(ZoomOut(zoom))
  {
  }

  /** From 100%, any sequence of presses stays within [50, 200] on a
      multiple of 25. */
  lemma {:induction false} ZoomStaysInRange(zoom: int, buttons: seq<ZoomButton>)
    requires ZoomLevel(zoom)
    ensures ZoomLevel(ApplyZoom(zoom, buttons))
    decreases |buttons|
  {
    if |buttons| > 0 {
      ZoomButtonsKeepLevel(zoom);
      ZoomStaysInRange(if buttons[0].ZoomInButton? then ZoomIn(zoom) else ZoomOut(zoom), buttons[1..]);
    }
  }

  lemma InitialZoomIsLevel()
    ensures ZoomLevel(InitialZoom)
  {
  }

  /** Below the maximum, zooming in and then out returns to the same
      level; above the minimum, zooming out and then in does too. */
  lemma ZoomInOutCancel(zoom: int)
    requires ZoomLevel(zoom)
    ensures zoom < MaxZoom ==> ZoomOut(ZoomIn(zoom)) == zoom
    ensures zoom > MinZoom ==> ZoomIn(ZoomOut(zoom)) == zoom
  {
  }

  // ---------------------------------------------------------------------------
  // Rotation

  /** `handleRotate`: a quarter turn clockwise, with JavaScript's `%`. */
  function RotateView(rotation: int): (r: int)
    requires rotation >= -90
    ensures 0 <= r < 360
    ensures (r - rotation - 90) % 360 == 0
  {
    JsRem360Range(rotation + 90);
    JsRem(rotation + 90, 360)
  }

  predicate QuarterTurn(r: int) {
    r == 0 || r == 90 || r == 180 || r == 270
  }

  /** The view's rotation is always a quarter turn, and four presses bring
      it back. */
  lemma RotationCycle(rotation: int)
    requires QuarterTurn(rotation)
    ensures QuarterTurn(RotateView(rotation))
    ensures RotateView(RotateView(RotateView(RotateView(rotation)))) == rotation
  {
  }

  // ---------------------------------------------------------------------------
  // Page image cache

  /** `if (pageImages[pageNum]) return`: a page whose cached image is a
      non-empty string is not requested again. */
  predicate Cached(cache: map<int, string>, page: int) {
    page in cache && cache[page] != ""
  }

  /** The outcome of `loadPageImage`: whether the backend was asked, and
      the cache afterwards. */
  datatype LoadOutcome = LoadOutcome(requested: bool, cache: map<int, string>)

  /** `loadPageImage`: `response` is what the backend would answer, `None`
      for a failure or an answer without an image. Only a non-empty image
      is stored. */
  function LoadPageImage(cache: map<int, string>, page: int, response: Option<string>): (o: LoadOutcome)
    ensures o.requested <==> !Cached(cache, page)
    ensures forall p :: p != page ==> (p in o.cache <==> p in cache)
    ensures forall p :: p != page && p in cache ==> o.cache[p] == cache[p]
    ensures !o.requested ==> o.cache == cache
    ensures o.requested && response.Some? && response.value != "" ==> Cached(o.cache, page) && o.cache[page] == response.value
    ensures o.requested && (response.None? || response.value == "") ==> o.cache == cache
  {
    if Cached(cache, page) then LoadOutcome(false, cache)
    else if response.Some? && response.value != "" then LoadOutcome(true, cache[page := response.value])
    else LoadOutcome(true, cache)
  }

  /** Once a page's image has arrived, loading it again asks nothing, and
      neither does loading any page cached before. */
  lemma LoadedPageIsNotRequestedAgain(cache: map<int, string>, page: int, image: string, other: int, response: Option<string>)
    requires image != ""
    requires Cached(cache, other)
    ensures var c := LoadPageImage(cache, page, Some(image)).cache;
      !LoadPageImage(c, page, response).requested && !LoadPageImage(c, other, response).requested
  {
  }

  /** `loadAllPageImages`: the pages from 1 to the page count that the
      cache does not hold, in ascending order: the requests made. */
  function PagesToLoad(cache: map<int, string>, totalPages: nat): (r: seq<int>)
    ensures forall p :: p in r <==> 1 <= p <= totalPages && !Cached(cache, p)
    ensures forall i, j :: 0 <= i < j < |r| ==> r[i] < r[j]
    decreases totalPages
  {
    if totalPages == 0 then []
    else
      var r := PagesToLoad(cache, totalPages - 1);
      if Cached(cache, totalPages) then r
      else
        var r' := r + [totalPages];
        assert forall i :: 0 <= i < |r| ==> r[i] in r;
        r'
  }

  // ---------------------------------------------------------------------------
  // Thumbnail map

  /** One entry of the backend's thumbnail list. */
  datatype Thumb = Thumb(page: int, thumbnail: string)

  /** `thumbMap[thumb.page] = thumb.thumbnail` for each entry in turn. */
  function ThumbMap(thumbs: seq<Thumb>): (m: map<int, string>)
    ensures |thumbs| > 0 ==> thumbs[|thumbs| - 1].page in m
    decreases |thumbs|
  {
    if |thumbs| == 0 then map[]
    else
      var last := thumbs[|thumbs| - 1];
      ThumbMap(thumbs[..|thumbs| - 1])[last.page := last.thumbnail]
  }

  /** No later entry is for the same page. */
  predicate LastFor(thumbs: seq<Thumb>, i: nat)
    requires i < |thumbs|
  {
    forall j :: i < j < |thumbs| ==> thumbs[j].page != thumbs[i].page
  }

  /** The map has exactly the pages of the list. */
  lemma {:induction false} ThumbMapDomain(thumbs: seq<Thumb>, k: int)
    ensures k in ThumbMap(thumbs) <==> exists i :: 0 <= i < |thumbs| && thumbs[i].page == k
    decreases |thumbs|
  {
    if |thumbs| > 0 {
      var init := thumbs[..|thumbs| - 1];
      ThumbMapDomain(init, k);
      if k in ThumbMap(init) {
        var i :| 0 <= i < |init| && init[i].page == k;
        assert thumbs[i].page == k;
      }
      if i :| 0 <= i < |thumbs| && thumbs[i].page == k {
        if i < |init| {
          assert init[i].page == k;
        }
      }
    }
  }

  /** A page's thumbnail is the one from its last entry: a later entry
      for the same page overwrites an earlier one. */
  lemma {:induction false} ThumbMapLastWins(thumbs: seq<Thumb>, i: nat)
    requires i < |thumbs| && LastFor(thumbs, i)
    ensures thumbs[i].page in ThumbMap(thumbs) && ThumbMap(thumbs)[thumbs[i].page] == thumbs[i].thumbnail
    decreases |thumbs|
  {
    if i < |thumbs| - 1 {
      var init := thumbs[..|thumbs| - 1];
      assert init[i] == thumbs[i];
      assert LastFor(init, i) by {
        forall j | i < j < |init| ensures init[j].page != init[i].page {
          assert init[j] == thumbs[j];
        }
      }
      ThumbMapLastWins(init, i);
      assert thumbs[|thumbs| - 1].page != thumbs[i].page;
    }
  }

  /** Building from two lists in turn is merging their maps, the second
      winning. */
  lemma {:induction false} ThumbMapAppend(a: seq<Thumb>, b: seq<Thumb>)
    ensures ThumbMap(a + b) == ThumbMap(a) + ThumbMap(b)
    decreases |b|
  {
    if |b| == 0 {
      assert a + b == a;
    } else {
      var b' := b[..|b| - 1];
      assert (a + b)[..|a + b| - 1] == a + b';
      ThumbMapAppend(a, b');
    }
  }
}
