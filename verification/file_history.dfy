/**
 * The recent-files list: entries stored most recent first, a new entry
 * added at the front, removal of one path, clearing after confirmation,
 * and the relative age shown next to each entry. Storage is the list
 * itself; the confirmation dialog's answer and the current time are
 * inputs.
 */
module FileHistory {
  import opened Wrappers
  import opened Strings

  /** One remembered file. The size is optional and never written by the
      application shell. */
  datatype HistoryItem = HistoryItem(path: string, name: string, timestamp: int, size: Option<nat>)

  /** `filter(h => h.path !== path)`: the entries with another path, in
      their order. */
  function WithoutPath(items: seq<HistoryItem>, path: string): (r: seq<HistoryItem>)
    ensures |r| <= |items|
    ensures forall i :: 0 <= i < |r| ==> r[i].path != path
    decreases |items|
  {
    if |items| == 0 then []
    else
      var rest := WithoutPath(items[1..], path);
      if items[0].path == path then rest else [items[0]] + rest
  }

  /** The number of entries before position `i` that a removal keeps: the
      position entry `i` has afterwards, when it is kept. */
  function KeptBefore(items: seq<HistoryItem>, path: string, i: nat): nat
    requires i <= |items|
  {
    |WithoutPath(items[..i], path)|
  }

  lemma {:induction false} WithoutPathAppend(a: seq<HistoryItem>, b: seq<HistoryItem>, path: string)
    ensures WithoutPath(a + b, path) == WithoutPath(a, path) + WithoutPath(b, path)
    decreases |a|
  {
    if |a| == 0 {
      assert a + b == b;
    } else {
      assert (a + b)[1..] == a[1..] + b;
      WithoutPathAppend(a[1..], b, path);
    }
  }

  /** Removal keeps exactly the entries with another path, each at the
      position given by the kept entries before it, so their relative
      order is unchanged. */
  lemma RemovalKeepsOrder(items: seq<HistoryItem>, path: string, i: nat)
    requires i < |items| && items[i].path != path
    ensures var r := WithoutPath(items, path);
      KeptBefore(items, path, i) < |r| && r[KeptBefore(items, path, i)] == items[i]
    ensures forall j :: i < j <= |items| ==> KeptBefore(items, path, i) < KeptBefore(items, path, j)
  {
    assert items == items[..i] + items[i..];
    WithoutPathAppend(items[..i], items[i..], path);
    assert WithoutPath(items[i..], path)[0] == items[i];
    forall j | i < j <= |items|
      ensures KeptBefore(items, path, i) < KeptBefore(items, path, j)
    {
      assert items[..j] == items[..i] + items[i..j];
      WithoutPathAppend(items[..i], items[i..j], path);
      assert WithoutPath(items[i..j], path)[0] == items[i];
    }
  }

  /** An entry survives a removal exactly when its path differs. */
  lemma {:induction false} RemovalMembership(items: seq<HistoryItem>, path: string, x: HistoryItem)
    ensures x in WithoutPath(items, path) <==> x in items && x.path != path
    decreases |items|
  {
    if |items| > 0 {
      RemovalMembership(items[1..], path, x);
      assert items == [items[0]] + items[1..];
    }
  }

  /** Removing a path twice is removing it once; a path no entry has
      removes nothing. */
  lemma {:induction false} RemovalIdempotent(items: seq<HistoryItem>, path: string)
    ensures WithoutPath(WithoutPath(items, path), path) == WithoutPath(items, path)
    ensures (forall i :: 0 <= i < |items| ==> items[i].path != path) ==> WithoutPath(items, path) == items
    decreases |items|
  {
    if |items| > 0 {
      RemovalIdempotent(items[1..], path);
      if items[0].path != path {
        assert ([items[0]] + WithoutPath(items[1..], path))[1..] == WithoutPath(items[1..], path);
      }
      if forall i :: 0 <= i < |items| ==> items[i].path != path {
        assert forall i :: 0 <= i < |items[1..]| ==> items[1..][i].path == items[i + 1].path;
        assert items == [items[0]] + items[1..];
      }
    }
  }

  /** `clearHistory`: the list is emptied only when the user confirms. */
  function ClearHistory(items: seq<HistoryItem>, confirmed: bool): (r: seq<HistoryItem>)
    ensures confirmed ==> r == []
    ensures !confirmed ==> r == items
  {
    if confirmed then [] else items
  }

  // ---------------------------------------------------------------------------
  // Adding a file

  const HistoryLimit: nat := 50

  /** `addToHistory`: a fresh entry for the path first, then the earlier
      entries with other paths, cut to the first fifty. */
  function AddToHistory(history: seq<HistoryItem>, path: string, now: int): (r: seq<HistoryItem>)
    ensures 1 <= |r| <= HistoryLimit
    ensures r[0] == HistoryItem(path, Basename(path), now, None)
    ensures forall i :: 1 <= i < |r| ==> r[i].path != path
    ensures |r| == if |WithoutPath(history, path)| < HistoryLimit then |WithoutPath(history, path)| + 1 else HistoryLimit
    ensures r[1..] == WithoutPath(history, path)[..|r| - 1]
  {
    var updated := [HistoryItem(path, Basename(path), now, None)] + WithoutPath(history, path);
    if |updated| <= HistoryLimit then updated else updated[..HistoryLimit]
  }

  /** The path is in the list exactly once, at the front. */
  lemma PathOnceAtFront(history: seq<HistoryItem>, path: string, now: int, i: nat)
    requires i < |AddToHistory(history, path, now)|
    ensures AddToHistory(history, path, now)[i].path == path <==> i == 0
  {
    var r := AddToHistory(history, path, now);
    if i > 0 {
      assert r[i] == r[1..][i - 1];
    }
  }

  /** An earlier entry with another path keeps its place relative to the
      others, one further back, unless it falls past the fiftieth place. */
  lemma OthersKeepOrder(history: seq<HistoryItem>, path: string, now: int, i: nat)
    requires i < |history| && history[i].path != path
    ensures var r := AddToHistory(history, path, now);
      var k := KeptBefore(history, path, i) + 1;
      (k < HistoryLimit ==> k < |r| && r[k] == history[i])
      && forall j :: i < j <= |history| ==> k < KeptBefore(history, path, j) + 1
  {
    RemovalKeepsOrder(history, path, i);
    var r := AddToHistory(history, path, now);
    var k := KeptBefore(history, path, i) + 1;
    if k < HistoryLimit {
      assert r[k] == r[1..][k - 1];
    }
  }

  /** Opening the most recent file again only renews its entry's time. */
  lemma ReopenRenews(history: seq<HistoryItem>, path: string, t1: int, t2: int)
    ensures AddToHistory(AddToHistory(history, path, t1), path, t2) == AddToHistory(history, path, t2)
  {
    var w := WithoutPath(history, path);
    var r1 := AddToHistory(history, path, t1);
    var r2 := AddToHistory(r1, path, t2);
    var r3 := AddToHistory(history, path, t2);
    RemovalOfRecent(history, path, t1);
    assert |r2| == |r3|;
    assert r2[1..] == r3[1..];
    assert r2 == [r2[0]] + r2[1..] && r3 == [r3[0]] + r3[1..];
  }

  /** Removing the path again from the list just written leaves the other
      entries kept there. */
  lemma RemovalOfRecent(history: seq<HistoryItem>, path: string, t: int)
    ensures var r := AddToHistory(history, path, t);
      WithoutPath(r, path) == WithoutPath(history, path)[..|r| - 1]
  {
    var r := AddToHistory(history, path, t);
    assert r == [r[0]] + r[1..];
    WithoutPathAppend([r[0]], r[1..], path);
    assert WithoutPath([r[0]], path) == [];
    RemovalIdempotent(r[1..], path);
  }

  // ---------------------------------------------------------------------------
  // Relative age

  /** The label next to an entry: relative text, or the locale's rendering
      of the date, whose format is not modelled. */
  datatype AgeLabel = Relative(text: string) | LocaleDate(timestamp: int)

  const MinuteMs: int := 60000
  const HourMs: int := 3600000
  const DayMs: int := 86400000

  /** `formatDate`: whole minutes, hours and days elapsed, each rounded
      down (`Math.floor`, which is Dafny's division for a positive
      divisor). */
  function FormatDate(timestamp: int, now: int): (r: AgeLabel)
  {
    var diffMs := now - timestamp;
    var mins := diffMs / MinuteMs;
    var hours := diffMs / HourMs;
    var days := diffMs / DayMs;
    if mins < 1 then Relative("Just now")
    else if mins < 60 then Relative(IntToString(mins) + " min ago")
    else if hours < 24 then Relative(IntToString(hours) + " hour" + (if hours > 1 then "s" else "") + " ago")
    else if days < 7 then Relative(IntToString(days) + " day" + (if days > 1 then "s" else "") + " ago")
    else LocaleDate(timestamp)
  }

  /** Less than a minute ago, and any time in the future, reads "Just now". */
  lemma JustNow(timestamp: int, now: int)
    requires now - timestamp < MinuteMs
    ensures FormatDate(timestamp, now) == Relative("Just now")
  {
  }

  /** From 1 to 59 whole minutes the label is the minute count. */
  lemma MinutesAgo(timestamp: int, now: int, m: int)
    requires 1 <= m < 60 && m * MinuteMs <= now - timestamp < (m + 1) * MinuteMs
    ensures FormatDate(timestamp, now) == Relative(NatToString(m) + " min ago")
  {
    var d := now - timestamp;
    assert d / MinuteMs == m;
  }

  /** From 1 to 23 whole hours the label is the hour count, plural exactly
      above one. */
  lemma HoursAgo(timestamp: int, now: int, h: int)
    requires 1 <= h < 24 && h * HourMs <= now - timestamp < (h + 1) * HourMs
    ensures FormatDate(timestamp, now) == Relative(NatToString(h) + (if h > 1 then " hours ago" else " hour ago"))
  {
    var d := now - timestamp;
    assert d / HourMs == h;
    assert d / MinuteMs >= 60;
    if h > 1 {
      assert NatToString(h) + " hour" + "s" + " ago" == NatToString(h) + " hours ago";
    } else {
      assert NatToString(h) + " hour" + "" + " ago" == NatToString(h) + " hour ago";
    }
  }

  /** From 1 to 6 whole days the label is the day count, plural exactly
      above one; a week or more shows the date. */
  lemma DaysAgo(timestamp: int, now: int, dd: int)
    requires 1 <= dd < 7 && dd * DayMs <= now - timestamp < (dd + 1) * DayMs
    ensures FormatDate(timestamp, now) == Relative(NatToString(dd) + (if dd > 1 then " days ago" else " day ago"))
  {
    var d := now - timestamp;
    assert d / DayMs == dd;
    assert d / MinuteMs >= 60;
    assert d / HourMs >= 24;
    if dd > 1 {
      assert NatToString(dd) + " day" + "s" + " ago" == NatToString(dd) + " days ago";
    } else {
      assert NatToString(dd) + " day" + "" + " ago" == NatToString(dd) + " day ago";
    }
  }

  lemma WeekOrMore(timestamp: int, now: int)
    requires now - timestamp >= 7 * DayMs
    ensures FormatDate(timestamp, now) == LocaleDate(timestamp)
  {
    var d := now - timestamp;
    assert d / MinuteMs >= 60;
    assert d / HourMs >= 24;
    assert d / DayMs >= 7;
  }
}
