/**
 * The page-level commands of the Python PDF editor script, over an abstract
 * document: a sequence of pages whose content is left opaque. Page numbers
 * are 1-based as in the command-line interface.
 */
module PageTransforms {
  import opened Wrappers
  import opened Strings

  // ---------------------------------------------------------------------------
  // Reordering

  /** Whether `n` names one of the `count` pages. */
  predicate InRange(n: int, count: nat) {
    1 <= n <= count
  }

  /** The entries of `order` that name a page, in order, duplicates kept. */
  function ValidEntries(order: seq<int>, count: nat): (r: seq<int>)
    ensures |r| <= |order|
    ensures forall k :: 0 <= k < |r| ==> InRange(r[k], count)
  {
    if |order| == 0 then []
    else if InRange(order[0], count) then [order[0]] + ValidEntries(order[1..], count)
    else ValidEntries(order[1..], count)
  }

  /** The effective reorder command: the page named by each in-range entry
      of `order`, in the order of the entries. Entries outside 1..N are
      dropped, and repeated entries copy the page again. */
  function Reorder<T>(pages: seq<T>, order: seq<int>): (r: seq<T>)
    ensures |r| == |ValidEntries(order, |pages|)|
    ensures forall k :: 0 <= k < |r| ==> r[k] == pages[ValidEntries(order, |pages|)[k] - 1]
  {
    var valid := ValidEntries(order, |pages|);
    seq(|valid|, k requires 0 <= k < |valid| => pages[valid[k] - 1])
  }

  /** The earlier, stricter reorder command, which a later definition of the
      same name replaces: it stops with an error naming the first entry
      outside 1..N and otherwise copies the named pages in order. */
  function ReorderStrict<T>(pages: seq<T>, order: seq<int>): (r: Result<seq<T>, string>)
    ensures r.Ok? <==> forall k :: 0 <= k < |order| ==> InRange(order[k], |pages|)
    ensures r.Ok? ==> |r.value| == |order| && forall k :: 0 <= k < |order| ==> r.value[k] == pages[order[k] - 1]
    ensures r.Err? ==> exists k :: 0 <= k < |order| && !InRange(order[k], |pages|) &&
                         (forall j :: 0 <= j < k ==> InRange(order[j], |pages|)) &&
                         r.error == "Invalid page number: " + IntToString(order[k])
  {
    if |order| == 0 then Ok([])
    else if !InRange(order[0], |pages|) then Err("Invalid page number: " + IntToString(order[0]))
    else match ReorderStrict(pages, order[1..])
      case Ok(rest) =>
        assert forall k :: 1 <= k < |order| ==> order[k] == order[1..][k - 1];
        Ok([pages[order[0] - 1]] + rest)
      case Err(e) =>
        assert forall k :: 1 <= k < |order| ==> order[k] == order[1..][k - 1];
        Err(e)
  }

  lemma {:induction false} ValidEntriesAllInRange(order: seq<int>, count: nat)
    requires forall k :: 0 <= k < |order| ==> InRange(order[k], count)
    ensures ValidEntries(order, count) == order
    decreases |order|
  {
    if |order| > 0 {
      ValidEntriesAllInRange(order[1..], count);
    }
  }

  /** When every entry names a page the two reorder commands agree. */
  lemma StrictAgreesWithLenient<T>(pages: seq<T>, order: seq<int>)
    requires forall k :: 0 <= k < |order| ==> InRange(order[k], |pages|)
    ensures ReorderStrict(pages, order) == Ok(Reorder(pages, order))
  {
    ReorderInRange(pages, order);
    var r := ReorderStrict(pages, order);
    assert r.Ok?;
    assert r.value == Reorder(pages, order);
  }

  /** With every entry in range, the reorder copies exactly the named pages. */
  lemma ReorderInRange<T>(pages: seq<T>, order: seq<int>)
    requires forall k :: 0 <= k < |order| ==> InRange(order[k], |pages|)
    ensures |Reorder(pages, order)| == |order|
    ensures forall k :: 0 <= k < |order| ==> InRange(order[k], |pages|) && Reorder(pages, order)[k] == pages[order[k] - 1]
  {
    ValidEntriesAllInRange(order, |pages|);
  }

  /** Reordering by a permutation of 1..N is a permutation of the pages. */
  lemma ReorderByIdentity<T>(pages: seq<T>)
    ensures Reorder(pages, seq(|pages|, i => i + 1)) == pages
  {
    ValidEntriesAllInRange(seq(|pages|, i => i + 1), |pages|);
  }

  // ---------------------------------------------------------------------------
  // Splitting

  /** One file the split command writes: its name inside the output
      directory and the page it holds. */
  datatype SplitFile<T> = SplitFile(name: string, page: T)

  function SplitFileName(n: nat): (r: string)
    ensures StartsWith(r, "page_") && EndsWith(r, ".pdf")
    ensures |r| > 9 && AllDigits(r[5..|r| - 4]) && DecValue(r[5..|r| - 4]) == n
  {
    var digits := NatToString(n);
    var r := "page_" + digits + ".pdf";
    assert r[5..|r| - 4] == digits;
    DecValueOfNatToString(n);
    r
  }

  /** Distinct page numbers give distinct file names. */
  lemma SplitFileNamesDistinct(m: nat, n: nat)
    requires SplitFileName(m) == SplitFileName(n)
    ensures m == n
  {
  }

  /** The split command: one file `page_<n>.pdf` per requested page number
      that names a page, in request order; other requests are skipped. */
  function Split<T>(pages: seq<T>, requested: seq<int>): (r: seq<SplitFile<T>>)
    ensures |r| == |ValidEntries(requested, |pages|)|
    ensures forall k :: 0 <= k < |r| ==>
      var n := ValidEntries(requested, |pages|)[k];
      r[k] == SplitFile(SplitFileName(n), pages[n - 1])
  {
    var valid := ValidEntries(requested, |pages|);
    seq(|valid|, k requires 0 <= k < |valid| => SplitFile(SplitFileName(valid[k]), pages[valid[k] - 1]))
  }

  /** The pages the split writes are those the reorder command would keep,
      in the same order. */
  lemma SplitPagesAreReorder<T>(pages: seq<T>, requested: seq<int>)
    ensures var files := Split(pages, requested);
      seq(|files|, k requires 0 <= k < |files| => files[k].page) == Reorder(pages, requested)
  {
  }

  // ---------------------------------------------------------------------------
  // Deleting

  /** The page numbers in 1..count that are not listed for deletion, ascending. */
  function Kept(count: nat, toDelete: seq<int>): (r: seq<int>)
    ensures forall k :: 0 <= k < |r| ==> InRange(r[k], count) && r[k] !in toDelete
    ensures forall n :: InRange(n, count) && n !in toDelete ==> n in r
    ensures forall j, k :: 0 <= j < k < |r| ==> r[j] < r[k]
  {
    if count == 0 then []
    else
      var before := Kept(count - 1, toDelete);
      if count in toDelete then before else before + [count]
  }

  /** The delete command: the pages whose number is not listed, in their
      original order. */
  function Delete<T>(pages: seq<T>, toDelete: seq<int>): (r: seq<T>)
    ensures |r| <= |pages|
    decreases |pages|
  {
    if |pages| == 0 then []
    else
      var last := |pages| - 1;
      var before := Delete(pages[..last], toDelete);
      if last + 1 in toDelete then before else before + [pages[last]]
  }

  /** Deleting equals reordering by the kept page numbers: every kept page
      appears once, in its original place in the order. */
  lemma ReorderOfPrefix<T>(pages: seq<T>, n: nat, order: seq<int>)
    requires n <= |pages|
    requires forall k :: 0 <= k < |order| ==> InRange(order[k], n)
    ensures Reorder(pages[..n], order) == Reorder(pages, order)
  {
    ReorderInRange(pages[..n], order);
    ReorderInRange(pages, order);
  }

  lemma ReorderSnoc<T>(pages: seq<T>, order: seq<int>, x: int)
    requires forall k :: 0 <= k < |order| ==> InRange(order[k], |pages|)
    requires InRange(x, |pages|)
    ensures Reorder(pages, order + [x]) == Reorder(pages, order) + [pages[x - 1]]
  {
    var ext := order + [x];
    assert forall k :: 0 <= k < |ext| ==> InRange(ext[k], |pages|);
    ReorderInRange(pages, order);
    ReorderInRange(pages, ext);
    var a := Reorder(pages, ext);
    var b := Reorder(pages, order) + [pages[x - 1]];
    assert |a| == |b|;
    forall k | 0 <= k < |a| ensures a[k] == b[k] {
      if k < |order| {
        assert ext[k] == order[k];
      }
    }
  }

  lemma {:induction false} DeleteIsReorderOfKept<T>(pages: seq<T>, toDelete: seq<int>)
    ensures Delete(pages, toDelete) == Reorder(pages, Kept(|pages|, toDelete))
    decreases |pages|
  {
    if |pages| > 0 {
      var last := |pages| - 1;
      DeleteIsReorderOfKept(pages[..last], toDelete);
      var keptInit := Kept(last, toDelete);
      ReorderOfPrefix(pages, last, keptInit);
      if last + 1 !in toDelete {
        ReorderSnoc(pages, keptInit, last + 1);
      }
    }
  }

  /** Deleting nothing keeps every page. */
  lemma DeleteNothing<T>(pages: seq<T>)
    ensures Delete(pages, []) == pages
  {
    DeleteIsReorderOfKept(pages, []);
    assert Kept(|pages|, []) == seq(|pages|, i => i + 1) by {
      var a := Kept(|pages|, []);
      var b: seq<int> := seq(|pages|, i => i + 1);
      KeptAllIsIota(|pages|);
    }
    ReorderByIdentity(pages);
  }

  lemma {:induction false} KeptAllIsIota(count: nat)
    ensures Kept(count, []) == seq(count, i => i + 1)
  {
    if count > 0 {
      KeptAllIsIota(count - 1);
      assert seq(count, i => i + 1) == seq(count - 1, i => i + 1) + [count];
    }
  }

  // ---------------------------------------------------------------------------
  // Rotating

  /** A page of the abstract document: what it shows and its rotation in degrees. */
  datatype PdfPage<C> = PdfPage(content: C, rotation: int)

  /** The rotate command: page `n` is turned by `rotations[n]` when `n` is a
      key, and every other page is copied unchanged; count and order stay. */
  function Rotate<C>(pages: seq<PdfPage<C>>, rotations: map<int, int>): (r: seq<PdfPage<C>>)
    ensures |r| == |pages|
    ensures forall i :: 0 <= i < |pages| ==> r[i].content == pages[i].content
    ensures forall i :: 0 <= i < |pages| && i + 1 in rotations ==> r[i].rotation == pages[i].rotation + rotations[i + 1]
    ensures forall i :: 0 <= i < |pages| && i + 1 !in rotations ==> r[i] == pages[i]
  {
    seq(|pages|, i requires 0 <= i < |pages| =>
      if i + 1 in rotations then pages[i].(rotation := pages[i].rotation + rotations[i + 1]) else pages[i])
  }

  /** Rotating with an empty map, or with only zero angles, changes nothing. */
  lemma RotateByZero<C>(pages: seq<PdfPage<C>>, rotations: map<int, int>)
    requires forall n :: n in rotations ==> rotations[n] == 0
    ensures Rotate(pages, rotations) == pages
  {
  }

  // ---------------------------------------------------------------------------
  // Compression settings

  /** The quality argument when the caller gives none. */
  const DefaultQualityArg: string := "medium"

  /** The quality argument as a percentage: Python `int()` of the text, 75
      when that fails, clamped to 10..100. */
  function CompressQuality(arg: string): (q: int)
    ensures 10 <= q <= 100
    ensures PyInt(arg).None? ==> q == 75
    ensures PyInt(arg).Some? && 10 <= PyInt(arg).value <= 100 ==> q == PyInt(arg).value
    ensures PyInt(arg).Some? && PyInt(arg).value < 10 ==> q == 10
    ensures PyInt(arg).Some? && PyInt(arg).value > 100 ==> q == 100
  {
    var v := PyInt(arg).GetOr(75);
    if v > 100 then 100 else if v < 10 then 10 else v
  }

  /** The default argument is not a number, so the default quality is 75. */
  lemma DefaultQualityIs75()
    ensures CompressQuality(DefaultQualityArg) == 75
  {
    assert Trim(Python, DefaultQualityArg) == DefaultQualityArg by {
      TrimUnchanged(Python, DefaultQualityArg);
    }
    assert !IsDigit(DefaultQualityArg[0]);
  }

  /** A number written as text comes back as itself when it is in range. */
  lemma QualityOfNumber(n: int)
    requires 10 <= n <= 100
    ensures CompressQuality(IntToString(n)) == n
  {
    PyIntOfIntToString(n);
  }

  /** The Ghostscript settings of a quality tier: the `PDFSETTINGS` preset,
      the JPEG quality, and the colour and grey image resolutions in dpi. */
  datatype Tier = Tier(preset: string, jpegQuality: nat, colorDpi: nat, grayDpi: nat)

  function TierFor(q: int): (t: Tier)
    ensures t.colorDpi == t.grayDpi
    ensures q >= 85 ==> t == Tier("/prepress", 95, 300, 300)
    ensures 70 <= q < 85 ==> t == Tier("/printer", 85, 300, 300)
    ensures 55 <= q < 70 ==> t == Tier("/ebook", 75, 150, 150)
    ensures 40 <= q < 55 ==> t == Tier("/screen", 60, 96, 96)
    ensures 25 <= q < 40 ==> t == Tier("/screen", 40, 72, 72)
    ensures q < 25 ==> t == Tier("/screen", 25, 50, 50)
  {
    if q >= 85 then Tier("/prepress", 95, 300, 300)
    else if q >= 70 then Tier("/printer", 85, 300, 300)
    else if q >= 55 then Tier("/ebook", 75, 150, 150)
    else if q >= 40 then Tier("/screen", 60, 96, 96)
    else if q >= 25 then Tier("/screen", 40, 72, 72)
    else Tier("/screen", 25, 50, 50)
  }

  /** A higher quality never gets a lower JPEG quality or resolution. */
  lemma TierMonotone(q1: int, q2: int)
    requires q1 <= q2
    ensures TierFor(q1).jpegQuality <= TierFor(q2).jpegQuality
    ensures TierFor(q1).colorDpi <= TierFor(q2).colorDpi
    ensures TierFor(q1).grayDpi <= TierFor(q2).grayDpi
  {
  }

  /** How the compressed file gets written. */
  datatype Writer =
    | Ghostscript(tier: Tier)
    /** The pikepdf fallback; `recompress` adds flate recompression and
        generalized stream decoding to the plain save. */
    | Pikepdf(recompress: bool)

  /** The writers the compress command runs, in order: Ghostscript with the
      tier's settings when an executable was found, then the pikepdf fallback
      when none was found or its run failed. */
  function CompressWriters(q: int, gsFound: bool, gsSucceeded: bool): (w: seq<Writer>)
    ensures 1 <= |w| <= 2
    ensures w[|w| - 1].Ghostscript? <==> gsFound && gsSucceeded
    ensures gsFound ==> w[0] == Ghostscript(TierFor(q))
    ensures w[|w| - 1].Pikepdf? ==> w[|w| - 1] == Pikepdf(q < 70)
  {
    var fallback := [Pikepdf(q < 70)];
    if !gsFound then fallback
    else if gsSucceeded then [Ghostscript(TierFor(q))]
    else [Ghostscript(TierFor(q))] + fallback
  }
}
