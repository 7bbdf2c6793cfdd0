/**
 * Post-processing of recognised text in the OCR script. Every rendered page
 * image yields a raw text; each is cleaned line by line and labelled with
 * its 1-based position among the rendered images. The results are either
 * framed as plain text (format `txt`) or handed to the JSON encoder. The
 * rendering and the recognition themselves are inputs here.
 */
module OcrFormat {
  import opened Wrappers
  import opened Strings

  const BoxWidth: nat := 55

  // ---------------------------------------------------------------------------
  // Cleaning

  /** Every line with its trailing whitespace removed. */
  function RStripLines(lines: seq<string>): (r: seq<string>)
    ensures |r| == |lines|
    ensures forall k :: 0 <= k < |r| ==> r[k] == TrimEnd(Python, lines[k])
  {
    seq(|lines|, k requires 0 <= k < |lines| => TrimEnd(Python, lines[k]))
  }

  /** The lines that are not entirely whitespace, in order. */
  function NonBlank(lines: seq<string>): (r: seq<string>)
    ensures |r| <= |lines|
    ensures forall l :: l in r <==> l in lines && !IsBlank(Python, l)
    decreases |lines|
  {
    if |lines| == 0 then []
    else
      assert lines == [lines[0]] + lines[1..];
      (if IsBlank(Python, lines[0]) then [] else [lines[0]]) + NonBlank(lines[1..])
  }

  /** The two cleaning passes of one page: trailing whitespace off every
      line and the lines rejoined; then the result split again and the
      blank lines dropped. */
  function CleanText(text: string): string {
    var stripped := Join(RStripLines(Split(text, '\n')), '\n');
    Join(NonBlank(Split(stripped, '\n')), '\n')
  }

  /** The lines a cleaned page consists of. */
  function CleanLines(text: string): seq<string> {
    NonBlank(RStripLines(Split(text, '\n')))
  }

  /** A line of information separators (U+001C..U+001F) is blank to
      Python, so the cleaning drops it, wherever it stands. */
  lemma SeparatorLineDropped(before: seq<string>, line: string, after: seq<string>)
    requires forall i :: 0 <= i < |line| ==> IsSeparator(line[i])
    ensures NonBlank(before + [line] + after) == NonBlank(before + after)
  {
    assert IsBlank(Python, line) by {
      forall i | 0 <= i < |line|
        ensures IsSpace(Python, line[i])
      {
      }
    }
    var one := [line];
    assert NonBlank(one) == [] by {
      assert one[1..] == [];
    }
    NonBlankAppend(before + one, after);
    NonBlankAppend(before, one);
    NonBlankAppend(before, after);
    assert NonBlank(before + one) == NonBlank(before);
  }

  /** No line of a cleaned page is empty, ends in whitespace or holds a line
      break. */
  predicate CleanLine(line: string) {
    && |line| > 0
    && !IsSpace(Python, line[|line| - 1])
    && '\n' !in line
  }

  lemma RStripKeepsLinesFree(lines: seq<string>)
    requires forall k :: 0 <= k < |lines| ==> '\n' !in lines[k]
    ensures forall k :: 0 <= k < |RStripLines(lines)| ==> '\n' !in RStripLines(lines)[k]
  {
    forall k | 0 <= k < |lines|
      ensures '\n' !in RStripLines(lines)[k]
    {
      var t := TrimEnd(Python, lines[k]);
      assert t == lines[k][..|t|];
    }
  }

  /** A line kept by the cleaning is a clean line. */
  lemma CleanLinesAreClean(text: string)
    ensures forall l :: l in CleanLines(text) ==> CleanLine(l)
  {
    var lines := Split(text, '\n');
    var stripped := RStripLines(lines);
    SplitPiecesFree(text, '\n');
    RStripKeepsLinesFree(lines);
    forall l | l in CleanLines(text)
      ensures CleanLine(l)
    {
      assert l in stripped && !IsBlank(Python, l);
      var k :| 0 <= k < |stripped| && stripped[k] == l;
      assert l == TrimEnd(Python, lines[k]);
    }
  }

  /** The cleaned page is its clean lines joined by line breaks: splitting
      the rejoined stripped lines gives them back. */
  lemma CleanTextIsJoinOfCleanLines(text: string)
    ensures CleanText(text) == Join(CleanLines(text), '\n')
  {
    var lines := Split(text, '\n');
    SplitPiecesFree(text, '\n');
    RStripKeepsLinesFree(lines);
    SplitJoin(RStripLines(lines), '\n');
  }

  /** The lines of a non-empty cleaned page, read back with `split('\n')`,
      are exactly its clean lines; an empty cleaned page has none. */
  lemma CleanTextLines(text: string)
    ensures |CleanLines(text)| == 0 <==> CleanText(text) == ""
    ensures |CleanLines(text)| > 0 ==> Split(CleanText(text), '\n') == CleanLines(text)
    ensures CleanText(text) != "" ==> forall k :: 0 <= k < |Split(CleanText(text), '\n')| ==>
      CleanLine(Split(CleanText(text), '\n')[k]) && !IsBlank(Python, Split(CleanText(text), '\n')[k])
  {
    var ls := CleanLines(text);
    CleanTextIsJoinOfCleanLines(text);
    CleanLinesAreClean(text);
    if |ls| > 0 {
      assert ls[0] in ls;
      JoinNonEmpty(ls, '\n');
      assert forall k :: 0 <= k < |ls| ==> '\n' !in ls[k] by {
        forall k | 0 <= k < |ls| ensures '\n' !in ls[k] { assert ls[k] in ls; }
      }
      SplitJoin(ls, '\n');
      forall k | 0 <= k < |ls|
        ensures CleanLine(ls[k]) && !IsBlank(Python, ls[k])
      {
        assert ls[k] in ls;
      }
    }
  }

  /** A join whose first piece is non-empty is non-empty. */
  lemma JoinNonEmpty(parts: seq<string>, c: char)
    requires |parts| > 0 && |parts[0]| > 0
    ensures |Join(parts, c)| > 0
  {
    if |parts| > 1 {
      JoinCons(parts[0], parts[1..], c);
      assert parts == [parts[0]] + parts[1..];
    }
  }

  /** Keeping the non-blank lines distributes over concatenation, so the
      kept lines stay in their original order. */
  lemma {:induction false} NonBlankAppend(a: seq<string>, b: seq<string>)
    ensures NonBlank(a + b) == NonBlank(a) + NonBlank(b)
    decreases |a|
  {
    if |a| > 0 {
      assert (a + b)[0] == a[0];
      assert (a + b)[1..] == a[1..] + b;
      NonBlankAppend(a[1..], b);
      var head := if IsBlank(Python, a[0]) then [] else [a[0]];
      var x, y := NonBlank(a[1..]), NonBlank(b);
      assert NonBlank(a + b) == head + NonBlank((a + b)[1..]);
      assert NonBlank(a) == head + x;
      assert head + (x + y) == (head + x) + y;
    } else {
      assert a + b == b;
    }
  }

  lemma {:induction false} NonBlankOfClean(lines: seq<string>)
    requires forall k :: 0 <= k < |lines| ==> !IsBlank(Python, lines[k])
    ensures NonBlank(lines) == lines
    decreases |lines|
  {
    if |lines| > 0 {
      NonBlankOfClean(lines[1..]);
      assert lines == [lines[0]] + lines[1..];
    }
  }

  lemma RStripOfClean(lines: seq<string>)
    requires forall k :: 0 <= k < |lines| ==> CleanLine(lines[k])
    ensures RStripLines(lines) == lines
  {
    forall k | 0 <= k < |lines|
      ensures TrimEnd(Python, lines[k]) == lines[k]
    {
      var l := lines[k];
      assert IsSpace(Python, l[|l| - 1]) == false;
    }
  }

  /** Cleaning a cleaned page changes nothing. */
  lemma CleanTextIdempotent(text: string)
    ensures CleanText(CleanText(text)) == CleanText(text)
  {
    var c := CleanText(text);
    CleanLinesOfCleanText(text);
    CleanTextIsJoinOfCleanLines(c);
    CleanTextIsJoinOfCleanLines(text);
  }

  /** The clean lines of a cleaned page are the clean lines of the page. */
  lemma CleanLinesOfCleanText(text: string)
    ensures CleanLines(CleanText(text)) == CleanLines(text)
  {
    var c := CleanText(text);
    var ls := CleanLines(text);
    CleanTextLines(text);
    if |ls| == 0 {
      assert c == "";
      EmptyHasNoCleanLines();
    } else {
      assert Split(c, '\n') == ls;
      CleanLinesAreClean(text);
      forall k | 0 <= k < |ls|
        ensures CleanLine(ls[k]) && !IsBlank(Python, ls[k])
      {
        assert ls[k] in ls;
      }
      RStripOfClean(ls);
      NonBlankOfClean(ls);
    }
  }

  lemma EmptyHasNoCleanLines()
    ensures CleanLines("") == []
  {
    assert Split("", '\n') == [""];
    assert RStripLines([""]) == [""];
    assert IsBlank(Python, "");
    assert NonBlank([""]) == [];
  }

  /** Cleaning works line by line: cleaning `a`, a line break and `b` keeps
      the clean lines of `a` followed by those of `b`. */
  lemma CleanLinesOfConcat(a: string, b: string)
    ensures CleanLines(a + "\n" + b) == CleanLines(a) + CleanLines(b)
  {
    assert a + "\n" + b == a + ['\n'] + b;
    SplitConcat(a, b, '\n');
    var la, lb := Split(a, '\n'), Split(b, '\n');
    assert RStripLines(la + lb) == RStripLines(la) + RStripLines(lb);
    NonBlankAppend(RStripLines(la), RStripLines(lb));
  }

  // ---------------------------------------------------------------------------
  // Pages

  /** One recognised page: its label and its cleaned text. */
  datatype PageText = PageText(page: nat, text: string)

  /** The result list: the raw text of the k-th rendered image (from 0)
      becomes page k + 1, whatever page of the file it was rendered from. */
  function Results(raw: seq<string>): (r: seq<PageText>)
    ensures |r| == |raw|
    ensures forall k :: 0 <= k < |r| ==> r[k] == PageText(k + 1, CleanText(raw[k]))
  {
    seq(|raw|, k requires 0 <= k < |raw| => PageText(k + 1, CleanText(raw[k])))
  }

  /** The pages handed to the renderer: all of them when no list is given
      (or the list is empty), otherwise every page from the smallest to the
      largest requested one, gaps included. */
  function RenderRange(pages: seq<int>): (r: Option<(int, int)>)
    ensures |pages| == 0 <==> r.None?
    ensures r.Some? ==> r.value.0 in pages && r.value.1 in pages
    ensures r.Some? ==> forall k :: 0 <= k < |pages| ==> r.value.0 <= pages[k] <= r.value.1
    decreases |pages|
  {
    if |pages| == 0 then None
    else if |pages| == 1 then Some((pages[0], pages[0]))
    else
      var rest := RenderRange(pages[1..]).value;
      assert pages == [pages[0]] + pages[1..];
      Some((if pages[0] < rest.0 then pages[0] else rest.0, if pages[0] > rest.1 then pages[0] else rest.1))
  }

  /** Requesting pages 3 and 5 renders 3, 4 and 5, labelled 1, 2 and 3. */
  lemma LabelsIgnoreRequestedPages(r3: string, r4: string, r5: string)
    ensures RenderRange([5, 3]) == Some((3, 5))
    ensures Numbers(Results([r3, r4, r5])) == [1, 2, 3]
  {
  }

  function Numbers(results: seq<PageText>): (r: seq<nat>)
    ensures |r| == |results|
    ensures forall k :: 0 <= k < |r| ==> r[k] == results[k].page
  {
    seq(|results|, k requires 0 <= k < |results| => results[k].page)
  }

  // ---------------------------------------------------------------------------
  // Formatting

  /** The three-line frame above a page: a row of 55 `═` between corners,
      the page number centred in 55 columns between bars, and a closing
      row, with a line break before and after. */
  function Header(page: nat): string {
    "\n╔" + Repeat('═', BoxWidth) + "╗\n║" + Center(NatToString(page), BoxWidth) + "║\n╚" + Repeat('═', BoxWidth) + "╝\n"
  }

  function Block(p: PageText): string {
    Header(p.page) + "\n" + p.text
  }

  /** `sep.join(parts)` for a string separator. */
  function JoinWith(parts: seq<string>, sep: string): (r: string)
    ensures |parts| == 0 ==> r == ""
    ensures |parts| == 1 ==> r == parts[0]
    decreases |parts|
  {
    if |parts| == 0 then ""
    else if |parts| == 1 then parts[0]
    else parts[0] + sep + JoinWith(parts[1..], sep)
  }

  /** The blocks of the pages with text, in page order. */
  function Blocks(results: seq<PageText>): (r: seq<string>)
    ensures |r| <= |results|
    decreases |results|
  {
    if |results| == 0 then []
    else (if results[0].text != "" then [Block(results[0])] else []) + Blocks(results[1..])
  }

  /** The `txt` output: the framed pages with text, separated by blank lines. */
  function FormatTxt(results: seq<PageText>): string {
    JoinWith(Blocks(results), "\n\n")
  }

  /** What the script returns: plain text for exactly `txt`, otherwise the
      whole result list (empty pages included) for the JSON encoder. */
  datatype OcrOutput = TxtOutput(text: string) | JsonOutput(pages: seq<PageText>)

  function OcrPdf(raw: seq<string>, outputFormat: string): (o: OcrOutput)
    ensures outputFormat == "txt" <==> o.TxtOutput?
    ensures o.JsonOutput? ==> |o.pages| == |raw|
  {
    if outputFormat == "txt" then TxtOutput(FormatTxt(Results(raw))) else JsonOutput(Results(raw))
  }

  /** The editor asks for `text`, which is not `txt`: it gets the JSON list. */
  lemma EditorFormatGetsJson(raw: seq<string>)
    ensures OcrPdf(raw, "text") == JsonOutput(Results(raw))
  {
  }

  /** Every block begins with its frame: a line break, the top corner and
      the 55-wide rule; in the number row the page number is centred in 55
      columns, the larger half of the padding on its left, so the row is 57
      characters; a number wider than the box is not padded. The text
      follows the frame after an empty line. */
  lemma BlockShape(p: PageText)
    ensures var number := NatToString(p.page);
      var k := |number|;
      var numberRow := if k <= BoxWidth then Repeat(' ', (BoxWidth + 1 - k) / 2) + number + Repeat(' ', (BoxWidth - k) / 2) else number;
      && Block(p) == "\n╔" + Repeat('═', BoxWidth) + "╗\n" + ("║" + numberRow + "║") + "\n╚" + Repeat('═', BoxWidth) + "╝\n\n" + p.text
      && (k <= BoxWidth ==> |Block(p)| == 2 * (BoxWidth + 3) + (BoxWidth + 2) + 3 + |p.text|)
  {
    var number := NatToString(p.page);
    var k := |number|;
    var numberRow := if k <= BoxWidth then Repeat(' ', (BoxWidth + 1 - k) / 2) + number + Repeat(' ', (BoxWidth - k) / 2) else number;
    assert Center(number, BoxWidth) == numberRow by {
      if k <= BoxWidth {
        CenterOddWidth(number, BoxWidth);
      }
    }
    BlockOfRow(p, numberRow);
  }

  /** The frame of a block around a given number row. */
  lemma BlockOfRow(p: PageText, numberRow: string)
    requires Center(NatToString(p.page), BoxWidth) == numberRow
    ensures Block(p) == "\n╔" + Repeat('═', BoxWidth) + "╗\n" + ("║" + numberRow + "║") + "\n╚" + Repeat('═', BoxWidth) + "╝\n\n" + p.text
  {
  }

  /** The `txt` output is empty exactly when no page has text. */
  lemma {:induction false} FormatTxtEmptyIff(results: seq<PageText>)
    ensures FormatTxt(results) == "" <==> forall k :: 0 <= k < |results| ==> results[k].text == ""
    decreases |results|
  {
    BlocksEmptyIff(results);
    var bs := Blocks(results);
    if |bs| > 0 {
      assert |bs[0]| > 0 by { BlocksNonEmpty(results); }
      if |bs| > 1 {
        assert JoinWith(bs, "\n\n") == bs[0] + "\n\n" + JoinWith(bs[1..], "\n\n");
      }
    }
  }

  lemma {:induction false} BlocksEmptyIff(results: seq<PageText>)
    ensures |Blocks(results)| == 0 <==> forall k :: 0 <= k < |results| ==> results[k].text == ""
    decreases |results|
  {
    if |results| > 0 {
      BlocksEmptyIff(results[1..]);
      if results[0].text == "" {
        forall k | 1 <= k < |results|
          ensures results[k].text == results[1..][k - 1].text
        {
        }
      }
    }
  }

  lemma {:induction false} BlocksNonEmpty(results: seq<PageText>)
    ensures forall k :: 0 <= k < |Blocks(results)| ==> |Blocks(results)[k]| > 0
    decreases |results|
  {
    if |results| > 0 {
      BlocksNonEmpty(results[1..]);
    }
  }

  /** A page without text adds nothing to the `txt` output, wherever it is. */
  lemma EmptyPageSkipped(a: seq<PageText>, page: nat, b: seq<PageText>)
    ensures FormatTxt(a + [PageText(page, "")] + b) == FormatTxt(a + b)
  {
    EmptyPageNoBlock(a, page, b);
  }

  lemma EmptyPageNoBlock(a: seq<PageText>, page: nat, b: seq<PageText>)
    ensures Blocks(a + [PageText(page, "")] + b) == Blocks(a + b)
  {
    var e := [PageText(page, "")] + b;
    BlocksAppend(a, e);
    BlocksAppend(a, b);
    assert e[1..] == b;
    assert Blocks(e) == Blocks(b);
    assert a + [PageText(page, "")] + b == a + e;
  }

  lemma {:induction false} BlocksAppend(a: seq<PageText>, b: seq<PageText>)
    ensures Blocks(a + b) == Blocks(a) + Blocks(b)
    decreases |a|
  {
    if |a| > 0 {
      assert (a + b)[0] == a[0];
      assert (a + b)[1..] == a[1..] + b;
      BlocksAppend(a[1..], b);
      var head := if a[0].text != "" then [Block(a[0])] else [];
      assert Blocks(a + b) == head + (Blocks(a[1..]) + Blocks(b));
      assert Blocks(a) == head + Blocks(a[1..]);
    } else {
      assert a + b == b;
    }
  }
}
