/**
 * The application shell: the files chosen and the recent-files entries it
 * writes for them, the file name it derives from a path, and the backend
 * calls it would plan if the editor handed back its pages. Storage, the
 * clock and the backend's answers are inputs.
 */
module AppShell {
  import opened Wrappers
  import opened Strings
  import opened FileHistory
  import opened EditorPages

  // ---------------------------------------------------------------------------
  // The file name idiom

  /** The file name recorded for a path is the text after its last
      backslash; a path without a backslash is recorded whole, slashes and
      all, because the first piece of the idiom is then the whole path and
      the fallback to `/` is never reached. */
  lemma BasenameCases(path: string)
    ensures '\\' !in path ==> Basename(path) == path
    ensures LastSegment(path, '\\') != "" ==> Basename(path) == LastSegment(path, '\\') && '\\' !in Basename(path)
    ensures EndsWith(path, Basename(path))
  {
    LastSegmentShape(path, '\\');
    LastSegmentShape(path, '/');
    assert EndsWith(path, path) by { assert path[|path| - |path|..] == path; }
  }

  /** The name the idiom evidently aims at: the text after the last
      separator of either kind. */
  function FileName(path: string): string {
    LastSegment(LastSegment(path, '\\'), '/')
  }

  /** The corrected name has no separator of either kind and is the end of
      the path, preceded by a separator unless it is the whole path. */
  lemma FileNameShape(path: string)
    ensures var r := FileName(path);
      && '\\' !in r && '/' !in r
      && EndsWith(path, r)
      && (|r| == |path| || path[|path| - |r| - 1] == '\\' || path[|path| - |r| - 1] == '/')
  {
    var a := LastSegment(path, '\\');
    NameAfterLast(path, '\\', '/', a, LastSegment(a, '/'));
  }

  /** `FileNameShape` for any two separators, about the named segments. */
  lemma NameAfterLast(path: string, back: char, slash: char, a: string, r: string)
    requires a == LastSegment(path, back) && r == LastSegment(a, slash)
    ensures back !in r && slash !in r && EndsWith(path, r)
    ensures |r| == |path| || path[|path| - |r| - 1] == back || path[|path| - |r| - 1] == slash
  {
    SegmentAfter(path, back, a);
    SegmentAfter(a, slash, r);
    NameAfterBoth(path, a, r, back, slash);
  }

  /** The part of `LastSegmentShape` the file name needs, about a named
      segment `r`. */
  lemma SegmentAfter(s: string, c: char, r: string)
    requires r == LastSegment(s, c)
    ensures c !in r && EndsWith(s, r) && (|r| == |s| || s[|s| - |r| - 1] == c)
  {
    LastSegmentShape(s, c);
  }

  /** The text `r` after the last slash of the text `a` after the last
      backslash of `path` has neither separator, ends `path`, and follows a
      separator unless it is all of `path`. */
  lemma NameAfterBoth(path: string, a: string, r: string, back: char, slash: char)
    requires EndsWith(path, a) && back !in a && (|a| == |path| || path[|path| - |a| - 1] == back)
    requires EndsWith(a, r) && slash !in r && (|r| == |a| || a[|a| - |r| - 1] == slash)
    ensures back !in r && slash !in r && EndsWith(path, r)
    ensures |r| == |path| || path[|path| - |r| - 1] == back || path[|path| - |r| - 1] == slash
  {
    SuffixOfSuffix(path, a, r);
    SuffixKeepsOut(a, r, back);
    SeparatorBefore(path, a, r, back, slash);
  }

  /** What precedes the name in the path is a separator of either kind. */
  lemma SeparatorBefore(path: string, a: string, r: string, back: char, slash: char)
    requires |r| <= |a| <= |path|
    requires |a| == |path| || path[|path| - |a| - 1] == back
    requires |r| == |a| || a[|a| - |r| - 1] == slash
    requires |r| < |a| ==> path[|path| - |r| - 1] == a[|a| - |r| - 1]
    ensures |r| == |path| || path[|path| - |r| - 1] == back || path[|path| - |r| - 1] == slash
  {
  }

  /** A character absent from `a` is absent from every suffix of `a`. */
  lemma SuffixKeepsOut(a: string, r: string, c: char)
    requires EndsWith(a, r) && c !in a
    ensures c !in r
  {
    forall k | 0 <= k < |r| ensures r[k] != c {
      assert r[k] == a[|a| - |r| + k];
    }
  }

  /** A suffix `r` of a suffix `a` of `s` is a suffix of `s`, preceded in
      `s` by what precedes it in `a`. */
  lemma SuffixOfSuffix(s: string, a: string, r: string)
    requires EndsWith(s, a) && EndsWith(a, r)
    ensures EndsWith(s, r)
    ensures |r| < |a| ==> s[|s| - |r| - 1] == a[|a| - |r| - 1]
  {
    assert s[|s| - |r|..] == s[|s| - |a|..][|a| - |r|..];
    if |r| < |a| {
      assert s[|s| - |r| - 1] == s[|s| - |a|..][|a| - |r| - 1];
    }
  }

  /** On a path with backslashes and no slashes the two agree. */
  lemma FileNameOnWindowsPaths(path: string)
    requires '/' !in path && LastSegment(path, '\\') != ""
    ensures Basename(path) == FileName(path)
  {
    LastSegmentShape(path, '\\');
    var a := LastSegment(path, '\\');
    assert '/' !in a by {
      forall k | 0 <= k < |a| ensures a[k] != '/' {
        assert a[k] == path[|path| - |a| + k];
      }
    }
    LastSegmentShape(a, '/');
  }

  /** On a slash-separated path the recorded name is the whole path, not
      the file name. */
  lemma SlashPathRecordedWhole(dir: string, name: string)
    requires '\\' !in dir && '\\' !in name && '/' !in name
    ensures Basename(dir + "/" + name) == dir + "/" + name
    ensures FileName(dir + "/" + name) == name
  {
    var p := dir + "/" + name;
    assert p == dir + ['/'] + name;
    assert '\\' !in p;
    BasenameCases(p);
    LastSegmentShape(p, '\\');
    LastSegmentAfter(dir, '/', name);
  }

  lemma {:induction false} LastSegmentAfter(dir: string, c: char, name: string)
    requires c !in name
    ensures LastSegment(dir + [c] + name, c) == name
    decreases |dir|
  {
    var p := dir + [c] + name;
    var i := IndexOf(p, c);
    assert p[|dir|] == c;
    if i < |dir| {
      assert p[i + 1..] == dir[i + 1..] + [c] + name;
      LastSegmentAfter(dir[i + 1..], c, name);
    } else {
      assert p[i + 1..] == name;
      LastSegmentShape(name, c);
    }
  }

  // ---------------------------------------------------------------------------
  // Choosing files

  datatype Tab = Tools | Edit | History | Preview | Documents

  /** The shell's state: the chosen files, the file being worked on, the
      visible tab, and the stored recent-files list. */
  datatype Shell = Shell(selectedFiles: seq<string>, currentFile: Option<string>, activeTab: Tab, history: seq<HistoryItem>)

  function InitShell(history: seq<HistoryItem>): Shell {
    Shell([], None, Preview, history)
  }

  /** The effect that follows every change of the chosen files: a
      non-empty first path is added to the recent-files list. */
  function Remember(history: seq<HistoryItem>, files: seq<string>, now: int): (r: seq<HistoryItem>)
    ensures |files| > 0 && files[0] != "" ==> r == AddToHistory(history, files[0], now)
    ensures |files| == 0 || files[0] == "" ==> r == history
  {
    if |files| > 0 && files[0] != "" then AddToHistory(history, files[0], now) else history
  }

  /** `handleFilesSelected` and the effect after it: the first file
      becomes current; an empty choice keeps the current file. */
  function FilesSelected(s: Shell, files: seq<string>, now: int): (r: Shell)
    ensures r.selectedFiles == files && r.activeTab == s.activeTab
    ensures |files| > 0 ==> r.currentFile == Some(files[0])
    ensures |files| == 0 ==> r.currentFile == s.currentFile && r.history == s.history
    ensures |files| > 0 && files[0] != "" ==> |r.history| >= 1 && r.history[0].path == files[0]
  {
    var current := if |files| > 0 then Some(files[0]) else s.currentFile;
    Shell(files, current, s.activeTab, Remember(s.history, files, now))
  }

  /** `handleFileFromHistory`: the path becomes the only chosen file and
      the current one, the tools tab opens, and the path moves to the
      front of the list. */
  function FileFromHistory(s: Shell, path: string, now: int): (r: Shell)
    ensures r.selectedFiles == [path] && r.currentFile == Some(path) && r.activeTab == Tools
    ensures path != "" ==> r.history == AddToHistory(s.history, path, now)
  {
    Shell([path], Some(path), Tools, Remember(s.history, [path], now))
  }

  // ---------------------------------------------------------------------------
  // Saving from the editor

  /** The pages rotated away from 0, keyed by page number; a later page
      with the same number and a non-zero rotation overwrites an earlier
      one. */
  function RotationMap(pages: seq<Page>): (m: map<int, int>)
    ensures forall k :: k in m <==> exists i :: 0 <= i < |pages| && pages[i].number == k && pages[i].rotation != 0
    decreases |pages|
  {
    if |pages| == 0 then map[]
    else
      var init := pages[..|pages| - 1];
      var last := pages[|pages| - 1];
      var m := RotationMap(init);
      assert forall i :: 0 <= i < |init| ==> init[i] == pages[i];
      if last.rotation != 0 then m[last.number := last.rotation] else m
  }

  /** No later page has the same number and a non-zero rotation. */
  predicate LastRotated(pages: seq<Page>, i: nat)
    requires i < |pages|
  {
    forall j :: i < j < |pages| ==> pages[j].number != pages[i].number || pages[j].rotation == 0
  }

  /** A rotated page's number maps to its rotation unless a later page
      with the same number is rotated too. */
  lemma {:induction false} RotationMapLastWins(pages: seq<Page>, i: nat)
    requires i < |pages| && pages[i].rotation != 0 && LastRotated(pages, i)
    ensures pages[i].number in RotationMap(pages) && RotationMap(pages)[pages[i].number] == pages[i].rotation
    decreases |pages|
  {
    if i < |pages| - 1 {
      var init := pages[..|pages| - 1];
      assert init[i] == pages[i];
      assert LastRotated(init, i) by {
        forall j | i < j < |init| ensures init[j].number != init[i].number || init[j].rotation == 0 {
          assert init[j] == pages[j];
        }
      }
      RotationMapLastWins(init, i);
    }
  }

  /** With distinct page numbers, as in any arrangement of the editor, every
      rotated page's number maps to its rotation. */
  lemma RotationMapOfDistinct(pages: seq<Page>, i: nat)
    requires forall a, b :: 0 <= a < b < |pages| ==> pages[a].number != pages[b].number
    requires i < |pages| && pages[i].rotation != 0
    ensures RotationMap(pages)[pages[i].number] == pages[i].rotation
  {
    RotationMapLastWins(pages, i);
  }

  /** 1..n without the numbers in `nums`, ascending. */
  function MissingUpTo(nums: seq<int>, n: nat): (r: seq<int>)
    ensures forall i :: 0 <= i < |r| ==> 1 <= r[i] <= n && r[i] !in nums
    ensures forall i, j :: 0 <= i < j < |r| ==> r[i] < r[j]
    ensures forall k :: 1 <= k <= n && k !in nums ==> k in r
    decreases n
  {
    if n == 0 then []
    else
      var r := MissingUpTo(nums, n - 1);
      if n in nums then r else r + [n]
  }

  /** `pagesToDelete`: the numbers from 1 to the page count that no page
      carries. */
  function PagesToDelete(pages: seq<Page>): (r: seq<int>)
    ensures forall k :: k in r <==> 1 <= k <= |pages| && k !in Numbers(pages)
    ensures forall i, j :: 0 <= i < j < |r| ==> r[i] < r[j]
  {
    MissingUpTo(Numbers(pages), |pages|)
  }

  /** When every number from 1 to n is present, none is missing. */
  lemma {:induction false} NoneMissing(nums: seq<int>, n: nat)
    requires forall k :: 1 <= k <= n ==> k in nums
    ensures MissingUpTo(nums, n) == []
    decreases n
  {
    if n > 0 {
      NoneMissing(nums, n - 1);
    }
  }

  /** An arrangement of 1..N has nothing to delete. */
  lemma ArrangementDeletesNothing(pages: seq<Page>)
    requires IsArrangement(pages)
    ensures PagesToDelete(pages) == []
  {
    forall k | 1 <= k <= |pages|
      ensures k in Numbers(pages)
    {
      assert Iota(|pages|)[k - 1] == k;
      assert k in multiset(Iota(|pages|));
    }
    NoneMissing(Numbers(pages), |pages|);
  }

  /** A file name is usable when one is set and it is not empty. */
  predicate HasFile(currentFile: Option<string>) {
    currentFile.Some? && currentFile.value != ""
  }

  datatype RotateCall = RotateCall(inputPath: string, outputPath: string, rotations: map<int, int>)
  datatype DeleteCall = DeleteCall(inputPath: string, outputPath: string, pagesToDelete: seq<int>)

  /** The backend calls `handleEditorSave` makes. Both write the same
      output, the first `.pdf` of the path replaced by `_edited.pdf`; a
      failed rotation ends the save before any deletion. */
  datatype SavePlan = SavePlan(rotate: Option<RotateCall>, delete: Option<DeleteCall>)

  function EditorSave(pages: seq<Page>, currentFile: Option<string>, rotateSucceeds: bool): (p: SavePlan)
    ensures p.rotate.Some? <==> |RotationMap(pages)| > 0 && HasFile(currentFile)
    ensures p.rotate.Some? ==> p.rotate.value.rotations == RotationMap(pages) && p.rotate.value.inputPath == currentFile.value
    ensures p.delete.Some? <==> |PagesToDelete(pages)| > 0 && HasFile(currentFile) && (p.rotate.None? || rotateSucceeds)
    ensures p.delete.Some? ==> p.delete.value.pagesToDelete == PagesToDelete(pages) && p.delete.value.inputPath == currentFile.value
  {
    var rotations := RotationMap(pages);
    var rotate := if |rotations| > 0 && HasFile(currentFile) then
      Some(RotateCall(currentFile.value, ReplaceFirst(currentFile.value, ".pdf", "_edited.pdf"), rotations))
    else None;
    var toDelete := PagesToDelete(pages);
    var delete := if |toDelete| > 0 && HasFile(currentFile) && (rotate.None? || rotateSucceeds) then
      Some(DeleteCall(currentFile.value, ReplaceFirst(currentFile.value, ".pdf", "_edited.pdf"), toDelete))
    else None;
    SavePlan(rotate, delete)
  }

  /** For any arrangement of 1..N, a save never deletes, and it rotates
      exactly when some page is turned. (The editor declares an `onSave`
      callback but never calls it, so no page list reaches this handler.) */
  lemma EditorSaveOfArrangement(pages: seq<Page>, currentFile: Option<string>, rotateSucceeds: bool)
    requires IsArrangement(pages) && HasFile(currentFile)
    ensures var p := EditorSave(pages, currentFile, rotateSucceeds);
      && p.delete.None?
      && (p.rotate.Some? <==> exists i :: 0 <= i < |pages| && pages[i].rotation != 0)
  {
    ArrangementDeletesNothing(pages);
    var m := RotationMap(pages);
    if i :| 0 <= i < |pages| && pages[i].rotation != 0 {
      assert pages[i].number in m;
    }
  }
}
