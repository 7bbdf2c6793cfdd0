/**
 * The text-replacement backend: the line diff that turns an old and a new
 * version of a document's extracted text into find/replace pairs, and the
 * per-page counting of the replacements made. Finding text on a page is the
 * PDF library's work; here it is a parameter `hits(page, text)` giving the
 * number of places `text` is found on the 0-based page `page`.
 */
module TextReplace {
  import opened Wrappers
  import opened Strings

  /** One find/replace pair. */
  datatype Replacement = Replacement(oldText: string, newText: string)

  // ---------------------------------------------------------------------------
  // The line diff

  /** Length of the longest common prefix of `a` and `b`. */
  function CommonPrefixLen(a: string, b: string): (p: nat)
    ensures p <= |a| && p <= |b|
    ensures forall k :: 0 <= k < p ==> a[k] == b[k]
    ensures p < |a| && p < |b| ==> a[p] != b[p]
    decreases |a|
  {
    if |a| == 0 || |b| == 0 || a[0] != b[0] then 0
    else 1 + CommonPrefixLen(a[1..], b[1..])
  }

  /** The character `k` places before the end of `a`. */
  function FromEnd(a: string, k: nat): char
    requires k < |a|
  {
    a[|a| - 1 - k]
  }

  /** Length of the longest common suffix of `a` and `b` that is at most
      `bound` long; the diff bounds it so that it does not overlap the
      common prefix in either line. */
  function CommonSuffixLen(a: string, b: string, bound: nat): (s: nat)
    ensures s <= bound && s <= |a| && s <= |b|
    ensures forall k :: 0 <= k < s ==> FromEnd(a, k) == FromEnd(b, k)
    ensures s < bound && s < |a| && s < |b| ==> FromEnd(a, s) != FromEnd(b, s)
    decreases bound
  {
    if bound == 0 || |a| == 0 || |b| == 0 || a[|a| - 1] != b[|b| - 1] then 0
    else
      var a' := a[..|a| - 1];
      var b' := b[..|b| - 1];
      var s := 1 + CommonSuffixLen(a', b', bound - 1);
      assert forall k :: 0 < k < |a| ==> FromEnd(a, k) == FromEnd(a', k - 1);
      assert forall k :: 0 < k < |b| ==> FromEnd(b, k) == FromEnd(b', k - 1);
      s
  }

  /** The common prefix of two lines, and the common suffix bounded by
      what remains of each after the prefix: together they never cover more
      than either line. */
  function PrefixAndSuffix(o: string, n: string): (ps: (nat, nat))
    ensures ps.0 + ps.1 <= |o| && ps.0 + ps.1 <= |n|
    ensures ps.0 == CommonPrefixLen(o, n)
    ensures ps.1 == CommonSuffixLen(o, n, if |o| - ps.0 < |n| - ps.0 then |o| - ps.0 else |n| - ps.0)
  {
    var p := CommonPrefixLen(o, n);
    (p, CommonSuffixLen(o, n, if |o| - p < |n| - p then |o| - p else |n| - p))
  }

  /** The stripped form of a slice of a line: stripping it again changes
      nothing, and it occurs in the line. */
  function StripSlice(o: string, lo: nat, hi: nat): (r: string)
    requires lo <= hi <= |o|
    ensures Trim(Python, r) == r && Contains(o, r)
  {
    TrimOccurs(Python, o[lo..hi]);
    ContainsInSlice(o, lo, hi, Trim(Python, o[lo..hi]));
    TrimIdempotent(Python, o[lo..hi]);
    Trim(Python, o[lo..hi])
  }

  /** The pair one line position contributes. Both lines are stripped;
      equal lines, or an empty one on either side, contribute nothing. A
      pair's old text is non-empty, stripped, and occurs in the stripped old
      line; its new text is stripped and occurs in the stripped new line. */
  function LinePair(oldLine: string, newLine: string): (r: Option<Replacement>)
    ensures Trim(Python, oldLine) == Trim(Python, newLine) || Trim(Python, oldLine) == "" || Trim(Python, newLine) == "" ==> r.None?
    ensures r.Some? ==> r.value.oldText != "" && Trim(Python, r.value.oldText) == r.value.oldText && Contains(Trim(Python, oldLine), r.value.oldText)
    ensures r.Some? ==> Trim(Python, r.value.newText) == r.value.newText && Contains(Trim(Python, newLine), r.value.newText)
  {
    StrippedPair(Trim(Python, oldLine), Trim(Python, newLine))
  }

  /** The pair of two stripped lines: the common prefix and the
      non-overlapping common suffix are cut off, the two middles are
      stripped, and the pair is kept only if the old middle is not empty. */
  function StrippedPair(o: string, n: string): (r: Option<Replacement>)
    ensures o == n || o == "" || n == "" ==> r.None?
    ensures r.Some? ==> r.value.oldText != "" && Trim(Python, r.value.oldText) == r.value.oldText && Contains(o, r.value.oldText)
    ensures r.Some? ==> Trim(Python, r.value.newText) == r.value.newText && Contains(n, r.value.newText)
  {
    if o == n || o == "" || n == "" then None
    else
      var ps := PrefixAndSuffix(o, n);
      var oldChanged := StripSlice(o, ps.0, |o| - ps.1);
      if oldChanged == "" then None
      else Some(Replacement(oldChanged, StripSlice(n, ps.0, |n| - ps.1)))
  }

  /** A shared prefix of length `m` is within the common prefix. */
  lemma {:induction false} CommonPrefixAtLeast(a: string, b: string, m: nat)
    requires m <= |a| && m <= |b| && forall k :: 0 <= k < m ==> a[k] == b[k]
    ensures CommonPrefixLen(a, b) >= m
    decreases m
  {
    if m > 0 {
      assert a[0] == b[0];
      CommonPrefixAtLeast(a[1..], b[1..], m - 1);
    }
  }

  /** A shared suffix of length `m`, within the bound, is within the
      common suffix. */
  lemma {:induction false} CommonSuffixAtLeast(a: string, b: string, bound: nat, m: nat)
    requires m <= bound && m <= |a| && m <= |b|
    requires forall k :: 0 <= k < m ==> FromEnd(a, k) == FromEnd(b, k)
    ensures CommonSuffixLen(a, b, bound) >= m
    decreases m
  {
    if m > 0 {
      assert FromEnd(a, 0) == FromEnd(b, 0);
      var a' := a[..|a| - 1];
      var b' := b[..|b| - 1];
      assert forall k :: 0 <= k < m - 1 ==> FromEnd(a', k) == FromEnd(a, k + 1);
      assert forall k :: 0 <= k < m - 1 ==> FromEnd(b', k) == FromEnd(b, k + 1);
      CommonSuffixAtLeast(a', b', bound - 1, m - 1);
    }
  }

  /** For an insertion into a line, the common prefix and the suffix
      bounded by the old line's remainder cover the whole old line. */
  lemma InsertionCoversOldLine(a: string, x: string, b: string)
    ensures var ps := PrefixAndSuffix(a + b, a + x + b); ps.0 + ps.1 == |a + b|
  {
    var o := a + b;
    var n := a + x + b;
    forall k | 0 <= k < |a|
      ensures o[k] == n[k]
    {
      assert o[k] == a[k] == n[k];
    }
    CommonPrefixAtLeast(o, n, |a|);
    var p := CommonPrefixLen(o, n);
    var m := |o| - p;
    forall k | 0 <= k < m
      ensures FromEnd(o, k) == FromEnd(n, k)
    {
      assert FromEnd(o, k) == FromEnd(b, k) == FromEnd(n, k);
    }
    CommonSuffixAtLeast(o, n, m, m);
  }

  /** Inserting text into a stripped line yields no pair: nothing of the
      old line is left between the common prefix and suffix. */
  lemma PureInsertionNoPair(a: string, x: string, b: string)
    requires Trim(Python, a + b) == a + b && Trim(Python, a + x + b) == a + x + b
    ensures LinePair(a + b, a + x + b).None?
  {
    StrippedInsertionNoPair(a, x, b);
  }

  lemma StrippedInsertionNoPair(a: string, x: string, b: string)
    ensures StrippedPair(a + b, a + x + b).None?
  {
    var o := a + b;
    var n := a + x + b;
    InsertionCoversOldLine(a, x, b);
    var ps := PrefixAndSuffix(o, n);
    assert ps.0 + ps.1 == |o|;
    if o != n && o != "" && n != "" {
      EmptySliceStripsToNothing(o, ps.0, |o| - ps.1);
      assert StripSlice(o, ps.0, |o| - ps.1) == "";
    }
  }

  /** A substitution inside a line: when the old text `x` and the new text
      `y` differ in their first and in their last characters, the common
      prefix is exactly `a` and the common suffix exactly `b`, so the pair is
      the two substituted texts, stripped; it is dropped exactly when the old
      text is blank. */
  lemma SubstitutionPair(a: string, x: string, y: string, b: string)
    requires |x| > 0 && |y| > 0
    requires x[0] != y[0] && x[|x| - 1] != y[|y| - 1]
    ensures StrippedPair(a + x + b, a + y + b) ==
      if Trim(Python, x) == "" then None else Some(Replacement(Trim(Python, x), Trim(Python, y)))
  {
    var o := a + x + b;
    var n := a + y + b;
    SubstitutionBounds(a, x, y, b);
    assert o[|a|] == x[0] && n[|a|] == y[0];
    assert o[|a|..|o| - |b|] == x;
    assert n[|a|..|n| - |b|] == y;
  }

  /** In a substitution the diff's common prefix is `a` and its common
      suffix is `b`. */
  lemma SubstitutionBounds(a: string, x: string, y: string, b: string)
    requires |x| > 0 && |y| > 0
    requires x[0] != y[0] && x[|x| - 1] != y[|y| - 1]
    ensures PrefixAndSuffix(a + x + b, a + y + b) == (|a|, |b|)
  {
    var o := a + x + b;
    var n := a + y + b;
    SubstitutionPrefix(a, x, y, b);
    var bound := if |o| - |a| < |n| - |a| then |o| - |a| else |n| - |a|;
    SubstitutionSuffix(a, x, y, b, bound);
  }

  lemma SubstitutionPrefix(a: string, x: string, y: string, b: string)
    requires |x| > 0 && |y| > 0 && x[0] != y[0]
    ensures CommonPrefixLen(a + x + b, a + y + b) == |a|
  {
    var o := a + x + b;
    var n := a + y + b;
    forall k | 0 <= k < |a|
      ensures o[k] == n[k]
    {
      assert o[k] == a[k] == n[k];
    }
    CommonPrefixAtLeast(o, n, |a|);
    assert o[|a|] == x[0] && n[|a|] == y[0];
  }

  lemma SubstitutionSuffix(a: string, x: string, y: string, b: string, bound: nat)
    requires |x| > 0 && |y| > 0 && x[|x| - 1] != y[|y| - 1]
    requires |b| < bound
    ensures CommonSuffixLen(a + x + b, a + y + b, bound) == |b|
  {
    var o := a + x + b;
    var n := a + y + b;
    forall k | 0 <= k < |b|
      ensures FromEnd(o, k) == FromEnd(n, k)
    {
      assert FromEnd(o, k) == FromEnd(b, k) == FromEnd(n, k);
    }
    CommonSuffixAtLeast(o, n, bound, |b|);
    assert FromEnd(o, |b|) == x[|x| - 1] && FromEnd(n, |b|) == y[|y| - 1];
  }

  /** The substitution seen through whole lines: for stripped lines the
      pair is the substituted texts, stripped, unless the old text is blank. */
  lemma SubstitutionLinePair(a: string, x: string, y: string, b: string)
    requires |x| > 0 && |y| > 0
    requires x[0] != y[0] && x[|x| - 1] != y[|y| - 1]
    requires Trim(Python, a + x + b) == a + x + b && Trim(Python, a + y + b) == a + y + b
    ensures LinePair(a + x + b, a + y + b) ==
      if Trim(Python, x) == "" then None else Some(Replacement(Trim(Python, x), Trim(Python, y)))
  {
    SubstitutionPair(a, x, y, b);
  }

  /** Changing "the cat sat" to "the dog sat" gives the pair ("cat", "dog"). */
  lemma CatToDog(oldLine: string, newLine: string)
    requires oldLine == "the cat sat" && newLine == "the dog sat"
    ensures LinePair(oldLine, newLine) == Some(Replacement("cat", "dog"))
  {
    var a, x, y, b := "the ", "cat", "dog", " sat";
    assert oldLine == a + x + b && newLine == a + y + b;
    CatToDogParts(a, x, y, b);
  }

  lemma CatToDogParts(a: string, x: string, y: string, b: string)
    requires a == "the " && x == "cat" && y == "dog" && b == " sat"
    ensures LinePair(a + x + b, a + y + b) == Some(Replacement(x, y))
  {
    TrimUnchanged(Python, a + x + b);
    TrimUnchanged(Python, a + y + b);
    TrimUnchanged(Python, x);
    TrimUnchanged(Python, y);
    SubstitutionLinePair(a, x, y, b);
  }

  lemma EmptySliceStripsToNothing(o: string, lo: nat, hi: nat)
    requires lo == hi <= |o|
    ensures StripSlice(o, lo, hi) == ""
  {
    assert o[lo..hi] == "";
    assert Trim(Python, "") == "";
  }

  /** The values held by the `Some` entries, in order. */
  function Somes(s: seq<Option<Replacement>>): (r: seq<Replacement>)
    ensures |r| <= |s|
    ensures forall x :: x in r <==> Some(x) in s
    decreases |s|
  {
    if |s| == 0 then []
    else
      var rest := Somes(s[1..]);
      assert forall x :: Some(x) in s <==> s[0] == Some(x) || Some(x) in s[1..];
      if s[0].Some? then [s[0].value] + rest else rest
  }

  /** The pair of every line position present in both versions. */
  function PerLine(oldLines: seq<string>, newLines: seq<string>): (r: seq<Option<Replacement>>)
    ensures |r| <= |oldLines| && |r| <= |newLines|
    ensures |r| == |oldLines| || |r| == |newLines|
    ensures forall i :: 0 <= i < |r| ==> r[i] == LinePair(oldLines[i], newLines[i])
  {
    var m := if |oldLines| < |newLines| then |oldLines| else |newLines|;
    seq(m, i requires 0 <= i < m => LinePair(oldLines[i], newLines[i]))
  }

  /** The pairs of all line positions present in both versions, in order:
      a pair is a candidate exactly when some position produces it. */
  function Candidates(oldLines: seq<string>, newLines: seq<string>): (r: seq<Replacement>)
    ensures forall c :: c in r ==> exists i :: 0 <= i < |oldLines| && i < |newLines| && LinePair(oldLines[i], newLines[i]) == Some(c)
    ensures forall i :: 0 <= i < |oldLines| && i < |newLines| && LinePair(oldLines[i], newLines[i]).Some? ==>
      LinePair(oldLines[i], newLines[i]).value in r
    ensures forall c :: c in r ==> c.oldText != ""
  {
    var perLine := PerLine(oldLines, newLines);
    assert forall i :: 0 <= i < |oldLines| && i < |newLines| ==> perLine[i] == LinePair(oldLines[i], newLines[i]);
    Somes(perLine)
  }

  /** Without any `Some` entry there is nothing to collect. */
  lemma {:induction false} SomesOfNones(s: seq<Option<Replacement>>)
    requires forall i :: 0 <= i < |s| ==> s[i].None?
    ensures Somes(s) == []
    decreases |s|
  {
    if |s| > 0 {
      SomesOfNones(s[1..]);
    }
  }

  // ---------------------------------------------------------------------------
  // De-duplication

  /** Index of the first pair whose old text is `key`. */
  function FirstWith(pairs: seq<Replacement>, key: string): (r: Option<nat>)
    ensures r.None? <==> forall k :: 0 <= k < |pairs| ==> pairs[k].oldText != key
    ensures r.Some? ==> r.value < |pairs| && pairs[r.value].oldText == key
    ensures r.Some? ==> forall k :: 0 <= k < r.value ==> pairs[k].oldText != key
    decreases |pairs|
  {
    if |pairs| == 0 then None
    else if pairs[0].oldText == key then Some(0)
    else match FirstWith(pairs[1..], key)
      case None => None
      case Some(k) => Some(k + 1)
  }

  /** The old texts of a sequence of pairs. */
  function Keys(pairs: seq<Replacement>): set<string>
  {
    set x | x in pairs :: x.oldText
  }

  /** The pairs whose old text was not seen before, keeping the first of
      each old text, in order: the `seen` set of the diff loop. */
  function DedupFrom(pairs: seq<Replacement>, seen: set<string>): (r: seq<Replacement>)
    ensures forall j :: 0 <= j < |r| ==> r[j].oldText !in seen
    ensures forall i, j :: 0 <= i < j < |r| ==> r[i].oldText != r[j].oldText
    ensures forall x :: x in r ==> x in pairs
    ensures Keys(r) == Keys(pairs) - seen
    decreases |pairs|
  {
    if |pairs| == 0 then []
    else
      var key := pairs[0].oldText;
      assert Keys(pairs) == {key} + Keys(pairs[1..]) by {
        assert forall x :: x in pairs <==> x == pairs[0] || x in pairs[1..];
      }
      if key in seen then
        DedupFrom(pairs[1..], seen)
      else
        var rest := DedupFrom(pairs[1..], seen + {key});
        var r := [pairs[0]] + rest;
        assert forall x :: x in r <==> x == pairs[0] || x in rest;
        assert Keys(r) == {key} + Keys(rest);
        r
  }

  /** Each kept pair is the first pair in the input with its old text. */
  lemma {:induction false} DedupFromFirstWins(pairs: seq<Replacement>, seen: set<string>, x: Replacement)
    requires x in DedupFrom(pairs, seen)
    ensures FirstWith(pairs, x.oldText).Some? && pairs[FirstWith(pairs, x.oldText).value] == x
    decreases |pairs|
  {
    var key := pairs[0].oldText;
    if key in seen {
      DedupFromFirstWins(pairs[1..], seen, x);
    } else if x != pairs[0] {
      var rest := DedupFrom(pairs[1..], seen + {key});
      assert x in rest;
      DedupFromFirstWins(pairs[1..], seen + {key}, x);
    }
  }

  /** The de-duplicated pairs: no two share an old text, every old text of
      the input is kept, and the first pair with each old text wins. */
  function Dedup(pairs: seq<Replacement>): (r: seq<Replacement>)
    ensures forall i, j :: 0 <= i < j < |r| ==> r[i].oldText != r[j].oldText
    ensures forall x :: x in r ==> x in pairs
    ensures Keys(r) == Keys(pairs)
  {
    DedupFrom(pairs, {})
  }

  /** The first pair with each old text is the one kept. */
  lemma DedupFirstWins(pairs: seq<Replacement>, x: Replacement)
    requires x in Dedup(pairs)
    ensures FirstWith(pairs, x.oldText).Some? && pairs[FirstWith(pairs, x.oldText).value] == x
  {
    DedupFromFirstWins(pairs, {}, x);
  }

  /** The replacement pairs of a content edit. */
  function DiffPairs(oldContent: string, newContent: string): (r: seq<Replacement>)
    ensures forall i, j :: 0 <= i < j < |r| ==> r[i].oldText != r[j].oldText
    ensures forall j :: 0 <= j < |r| ==> r[j].oldText != ""
  {
    var candidates := Candidates(Split(oldContent, '\n'), Split(newContent, '\n'));
    Dedup(candidates)
  }

  // ---------------------------------------------------------------------------
  // Counting

  /** One entry of the per-page report: a 1-based page and its count. */
  datatype PageDetail = PageDetail(page: nat, replacements: nat)

  /** Number of replacements on page `page`: the hits of every text. */
  function PageHits(hits: (nat, string) -> nat, page: nat, texts: seq<string>): nat
    decreases |texts|
  {
    if |texts| == 0 then 0
    else PageHits(hits, page, texts[..|texts| - 1]) + hits(page, texts[|texts| - 1])
  }

  /** Sum of the first `n` page counts. */
  function SumUpTo(counts: seq<nat>, n: nat): nat
    requires n <= |counts|
    decreases n
  {
    if n == 0 then 0 else SumUpTo(counts, n - 1) + counts[n - 1]
  }

  /** Sum of all page counts. */
  function Sum(counts: seq<nat>): nat {
    SumUpTo(counts, |counts|)
  }

  function SumDetails(d: seq<PageDetail>): nat
    decreases |d|
  {
    if |d| == 0 then 0 else SumDetails(d[..|d| - 1]) + d[|d| - 1].replacements
  }

  /** Whether the report has an entry for the 1-based page `page`. */
  predicate Listed(d: seq<PageDetail>, page: nat)
    decreases |d|
  {
    |d| > 0 && (d[|d| - 1].page == page || Listed(d[..|d| - 1], page))
  }

  /** The report entries for the first `n` pages with a positive count, in
      page order. */
  function ModifiedUpTo(counts: seq<nat>, n: nat): (d: seq<PageDetail>)
    requires n <= |counts|
    ensures |d| <= n
    decreases n
  {
    if n == 0 then []
    else
      var before := ModifiedUpTo(counts, n - 1);
      if counts[n - 1] > 0 then before + [PageDetail(n, counts[n - 1])] else before
  }

  /** Each entry names one of the first `n` pages and its positive count,
      and the entries are in increasing page order. */
  predicate EntriesWithin(counts: seq<nat>, n: nat, d: seq<PageDetail>)
    requires n <= |counts|
  {
    && (forall k :: 0 <= k < |d| ==> 1 <= d[k].page <= n && d[k].replacements == counts[d[k].page - 1] > 0)
    && (forall i, j :: 0 <= i < j < |d| ==> d[i].page < d[j].page)
  }

  lemma {:induction false} ModifiedUpToEntries(counts: seq<nat>, n: nat)
    requires n <= |counts|
    ensures EntriesWithin(counts, n, ModifiedUpTo(counts, n))
    decreases n
  {
    if n > 0 {
      ModifiedUpToEntries(counts, n - 1);
      var before := ModifiedUpTo(counts, n - 1);
      if counts[n - 1] > 0 {
        var d := before + [PageDetail(n, counts[n - 1])];
        assert forall k :: 0 <= k < |before| ==> d[k] == before[k];
        assert d[|before|] == PageDetail(n, counts[n - 1]);
      }
    }
  }

  /** A page has an entry exactly when its count is positive. */
  lemma {:induction false} ModifiedUpToListed(counts: seq<nat>, n: nat)
    requires n <= |counts|
    ensures forall p :: 0 <= p < n ==> (counts[p] > 0 <==> Listed(ModifiedUpTo(counts, n), p + 1))
    ensures forall page: nat :: Listed(ModifiedUpTo(counts, n), page) ==> 1 <= page <= n
    decreases n
  {
    if n > 0 {
      ModifiedUpToListed(counts, n - 1);
      var before := ModifiedUpTo(counts, n - 1);
      if counts[n - 1] > 0 {
        var d := before + [PageDetail(n, counts[n - 1])];
        assert d[..|d| - 1] == before;
      }
    }
  }

  /** The report entries for all pages with a positive count: each entry
      names a page and its count, the entries are in page order, and a page
      has an entry exactly when its count is positive. */
  function ModifiedPages(counts: seq<nat>): (d: seq<PageDetail>)
    ensures |d| <= |counts|
    ensures forall k :: 0 <= k < |d| ==> 1 <= d[k].page <= |counts| && d[k].replacements == counts[d[k].page - 1] > 0
    ensures forall i, j :: 0 <= i < j < |d| ==> d[i].page < d[j].page
    ensures forall p :: 0 <= p < |counts| ==> (counts[p] > 0 <==> Listed(d, p + 1))
  {
    ModifiedUpToEntries(counts, |counts|);
    ModifiedUpToListed(counts, |counts|);
    ModifiedUpTo(counts, |counts|)
  }

  /** The reported counts add up to the total: pages left out contribute
      zero. */
  lemma {:induction false} ModifiedUpToSum(counts: seq<nat>, n: nat)
    requires n <= |counts|
    ensures SumDetails(ModifiedUpTo(counts, n)) == SumUpTo(counts, n)
    decreases n
  {
    if n > 0 {
      ModifiedUpToSum(counts, n - 1);
      var before := ModifiedUpTo(counts, n - 1);
      if counts[n - 1] > 0 {
        var d := before + [PageDetail(n, counts[n - 1])];
        assert ModifiedUpTo(counts, n) == d;
        assert d[..|d| - 1] == before;
        assert SumDetails(d) == SumDetails(before) + counts[n - 1];
        assert SumUpTo(counts, n) == SumUpTo(counts, n - 1) + counts[n - 1];
        assert SumDetails(ModifiedUpTo(counts, n)) == SumUpTo(counts, n);
      } else {
        assert ModifiedUpTo(counts, n) == before;
        assert SumUpTo(counts, n) == SumUpTo(counts, n - 1) + counts[n - 1];
        assert SumDetails(ModifiedUpTo(counts, n)) == SumUpTo(counts, n);
      }
    } else {
      assert ModifiedUpTo(counts, n) == [];
    }
  }

  lemma ModifiedPagesSum(counts: seq<nat>)
    ensures SumDetails(ModifiedPages(counts)) == Sum(counts)
  {
    ModifiedUpToSum(counts, |counts|);
  }

  /** Per-page counts of a document with `pageCount` pages. */
  function Counts(hits: (nat, string) -> nat, pageCount: nat, texts: seq<string>): (c: seq<nat>)
    ensures |c| == pageCount
    ensures forall p :: 0 <= p < pageCount ==> c[p] == PageHits(hits, p, texts)
  {
    seq(pageCount, p requires 0 <= p < pageCount => PageHits(hits, p, texts))
  }

  /** The page loop shared by both replacement commands: for every page,
      the hits of every text are added up; pages with a positive count are
      reported, and the total is the sum over all pages. */
  method CountReplacements(hits: (nat, string) -> nat, pageCount: nat, texts: seq<string>)
    returns (total: nat, details: seq<PageDetail>)
    ensures total == Sum(Counts(hits, pageCount, texts))
    ensures details == ModifiedPages(Counts(hits, pageCount, texts))
    ensures total == SumDetails(details)
  {
    var counts := Counts(hits, pageCount, texts);
    total := 0;
    details := [];
    var page := 0;
    assert ModifiedUpTo(counts, 0) == [];
    while page < pageCount
      invariant 0 <= page <= pageCount
      invariant total == SumUpTo(counts, page)
      invariant details == ModifiedUpTo(counts, page)
    {
      var pageReplacements := PageCount(hits, page, texts);
      assert pageReplacements == counts[page];
      ModifiedUpToStep(counts, page);
      if pageReplacements > 0 {
        details := details + [PageDetail(page + 1, pageReplacements)];
      }
      total := total + pageReplacements;
      page := page + 1;
    }
    ModifiedPagesSum(counts);
  }

  /** One more page adds its entry when its count is positive. */
  lemma ModifiedUpToStep(counts: seq<nat>, n: nat)
    requires n < |counts|
    ensures ModifiedUpTo(counts, n + 1) ==
      if counts[n] > 0 then ModifiedUpTo(counts, n) + [PageDetail(n + 1, counts[n])] else ModifiedUpTo(counts, n)
  {
  }

  /** The inner loop: the hits of every text on one page. */
  method PageCount(hits: (nat, string) -> nat, page: nat, texts: seq<string>) returns (n: nat)
    ensures n == PageHits(hits, page, texts)
  {
    n := 0;
    var j := 0;
    while j < |texts|
      invariant 0 <= j <= |texts|
      invariant n == PageHits(hits, page, texts[..j])
    {
      assert texts[..j + 1][..j] == texts[..j];
      n := n + hits(page, texts[j]);
      j := j + 1;
    }
    assert texts[..|texts|] == texts;
  }

  // ---------------------------------------------------------------------------
  // The two commands

  /** A requested replacement; either text may be missing. */
  datatype ReplacementSpec = ReplacementSpec(oldText: Option<string>, newText: Option<string>)

  /** The old texts that are searched for: requests whose old text is
      missing or empty are skipped. */
  function SearchedTexts(specs: seq<ReplacementSpec>): (r: seq<string>)
    ensures forall k :: 0 <= k < |r| ==> r[k] != ""
    ensures forall t :: t in r <==> exists k :: 0 <= k < |specs| && specs[k].oldText == Some(t) && t != ""
    decreases |specs|
  {
    if |specs| == 0 then []
    else
      var rest := SearchedTexts(specs[1..]);
      assert forall t :: (exists k :: 1 <= k < |specs| && specs[k].oldText == Some(t) && t != "") <==>
                         (exists k :: 0 <= k < |specs[1..]| && specs[1..][k].oldText == Some(t) && t != "") by {
        forall t | exists k :: 0 <= k < |specs[1..]| && specs[1..][k].oldText == Some(t) && t != ""
          ensures exists k :: 1 <= k < |specs| && specs[k].oldText == Some(t) && t != ""
        {
          var k :| 0 <= k < |specs[1..]| && specs[1..][k].oldText == Some(t) && t != "";
          assert specs[k + 1].oldText == Some(t);
        }
        forall t | exists k :: 1 <= k < |specs| && specs[k].oldText == Some(t) && t != ""
          ensures exists k :: 0 <= k < |specs[1..]| && specs[1..][k].oldText == Some(t) && t != ""
        {
          var k :| 1 <= k < |specs| && specs[k].oldText == Some(t) && t != "";
          assert specs[1..][k - 1].oldText == Some(t);
        }
      }
      match specs[0].oldText
      case Some(t) => if t != "" then [t] + rest else rest
      case None => rest
  }

  datatype Report = Report(totalReplacements: nat, pagesModified: nat, pageDetails: seq<PageDetail>)

  /** The explicit-pairs command: the skipped requests count nowhere, the
      page details list exactly the pages with a replacement, and the total
      is the sum of the page counts. */
  method ReplaceTextInPdf(hits: (nat, string) -> nat, pageCount: nat, specs: seq<ReplacementSpec>)
    returns (r: Report)
    ensures r.pageDetails == ModifiedPages(Counts(hits, pageCount, SearchedTexts(specs)))
    ensures r.pagesModified == |r.pageDetails|
    ensures r.totalReplacements == SumDetails(r.pageDetails)
    ensures forall p :: 0 <= p < pageCount ==>
      (PageHits(hits, p, SearchedTexts(specs)) > 0 <==> Listed(r.pageDetails, p + 1))
  {
    var total, details := CountReplacements(hits, pageCount, SearchedTexts(specs));
    r := Report(total, |details|, details);
  }

  /** Outcome of a content edit. */
  datatype SmartOutcome =
    /** The stripped versions are equal: nothing is opened or written. */
    | NoChanges
    | Replaced(totalReplacements: nat, pagesModified: nat)

  /** The content-edit command: unchanged content (up to surrounding white
      space) returns at once with zero replacements; otherwise the diff pairs
      are searched on every page and counted. */
  method SmartReplace(hits: (nat, string) -> nat, pageCount: nat, oldContent: string, newContent: string)
    returns (r: SmartOutcome)
    ensures Trim(Python, oldContent) == Trim(Python, newContent) <==> r.NoChanges?
    ensures r.Replaced? ==>
      var counts := Counts(hits, pageCount, Texts(DiffPairs(oldContent, newContent)));
      r.totalReplacements == Sum(counts) && r.pagesModified == |ModifiedPages(counts)|
  {
    if Trim(Python, oldContent) == Trim(Python, newContent) {
      return NoChanges;
    }
    var total, details := CountReplacements(hits, pageCount, Texts(DiffPairs(oldContent, newContent)));
    r := Replaced(total, |details|);
  }

  function Texts(pairs: seq<Replacement>): (r: seq<string>)
    ensures |r| == |pairs| && forall k :: 0 <= k < |pairs| ==> r[k] == pairs[k].oldText
  {
    seq(|pairs|, k requires 0 <= k < |pairs| => pairs[k].oldText)
  }

  /** An edit that only adds a line at the end finds nothing to replace. */
  lemma AppendedLineNoPairs(oldContent: string, line: string)
    ensures DiffPairs(oldContent, oldContent + "\n" + line) == []
  {
    var oldLines := Split(oldContent, '\n');
    var newLines := Split(oldContent + "\n" + line, '\n');
    SplitAppend(oldContent, line);
    CandidatesOfEqualPrefix(oldLines, newLines);
  }

  lemma SplitAppend(s: string, line: string)
    ensures |Split(s + "\n" + line, '\n')| > |Split(s, '\n')|
    ensures Split(s + "\n" + line, '\n')[..|Split(s, '\n')|] == Split(s, '\n')
  {
    SplitConcat(s, line, '\n');
    assert s + "\n" + line == s + ['\n'] + line;
  }

  /** Line positions holding equal lines contribute no pair. */
  lemma CandidatesOfEqualPrefix(oldLines: seq<string>, newLines: seq<string>)
    requires |oldLines| <= |newLines| && newLines[..|oldLines|] == oldLines
    ensures Candidates(oldLines, newLines) == []
  {
    var perLine := PerLine(oldLines, newLines);
    forall i | 0 <= i < |perLine|
      ensures perLine[i].None?
    {
      assert newLines[i] == oldLines[i];
    }
    SomesOfNones(perLine);
  }
}
