/**
 * Text primitives that the application's TypeScript, Python and Rust code
 * rely on: trimming, splitting and joining on a separator character,
 * substring search, first-occurrence replacement, ASCII lower-casing,
 * decimal rendering of integers and the two integer parsers in use
 * (JavaScript's `parseInt` and Python's `int(str)`).
 */
module Strings {
  import opened Wrappers
  import JsMath

  // ---------------------------------------------------------------------------
  // Characters

  /** The runtime whose idea of whitespace a trim follows. */
  datatype Runtime = JavaScript | Python | Rust

  /** Whitespace within the ASCII range. JavaScript's `trim` and Rust's
      `str::trim` take tab, line feed, vertical tab, form feed, carriage
      return and space. Python's `str.strip`, `str.isspace` and `int()` take
      the four information separators U+001C..U+001F as well. */
  predicate IsSpace(rt: Runtime, c: char) {
    IsCommonSpace(c) || (rt == Python && IsSeparator(c))
  }

  /** The whitespace all three runtimes share. */
  predicate IsCommonSpace(c: char) {
    c == ' ' || c == '\t' || c == '\n' || c == '\r' || c == '\U{000B}' || c == '\U{000C}'
  }

  /** The ASCII information separators U+001C..U+001F. */
  predicate IsSeparator(c: char) {
    '\U{001C}' <= c <= '\U{001F}'
  }

  predicate IsDigit(c: char) {
    '0' <= c <= '9'
  }

  predicate IsLower(c: char) {
    'a' <= c <= 'z'
  }

  predicate IsUpper(c: char) {
    'A' <= c <= 'Z'
  }

  predicate IsHexDigit(c: char) {
    IsDigit(c) || 'a' <= c <= 'f' || 'A' <= c <= 'F'
  }

  predicate AllDigits(s: string) {
    forall i :: 0 <= i < |s| ==> IsDigit(s[i])
  }

  predicate AllHexDigits(s: string) {
    forall i :: 0 <= i < |s| ==> IsHexDigit(s[i])
  }

  predicate IsBlank(rt: Runtime, s: string) {
    forall i :: 0 <= i < |s| ==> IsSpace(rt, s[i])
  }

  function LowerChar(c: char): char {
    if IsUpper(c) then ((c as int) - ('A' as int) + ('a' as int)) as char else c
  }

  /** ASCII lower-casing, the part of `toLowerCase` the model keeps. */
  function Lower(s: string): (r: string)
    ensures |r| == |s|
    ensures forall i :: 0 <= i < |s| ==> r[i] == LowerChar(s[i])
  {
    seq(|s|, i requires 0 <= i < |s| => LowerChar(s[i]))
  }

  // ---------------------------------------------------------------------------
  // Trimming

  /** Drops leading whitespace (JavaScript `trimStart`, Python `lstrip()`). */
  function TrimStart(rt: Runtime, s: string): (r: string)
    ensures |r| <= |s| && r == s[|s| - |r|..]
    ensures |r| > 0 ==> !IsSpace(rt, r[0])
    decreases |s|
  {
    if |s| > 0 && IsSpace(rt, s[0]) then TrimStart(rt, s[1..]) else s
  }

  /** What `TrimStart` drops is whitespace. */
  lemma {:induction false} TrimStartDropsBlank(rt: Runtime, s: string)
    ensures IsBlank(rt, s[..|s| - |TrimStart(rt, s)|])
    decreases |s|
  {
    if |s| > 0 && IsSpace(rt, s[0]) {
      TrimStartDropsBlank(rt, s[1..]);
      var k := |s| - |TrimStart(rt, s)|;
      assert s[..k] == [s[0]] + s[1..][..k - 1];
    }
  }

  /** Drops trailing whitespace (Python `rstrip()`, JavaScript `trimEnd`). */
  function TrimEnd(rt: Runtime, s: string): (r: string)
    ensures |r| <= |s| && r == s[..|r|]
    ensures |r| > 0 ==> !IsSpace(rt, r[|r| - 1])
    decreases |s|
  {
    if |s| > 0 && IsSpace(rt, s[|s| - 1]) then TrimEnd(rt, s[..|s| - 1]) else s
  }

  /** What `TrimEnd` drops is whitespace. */
  lemma {:induction false} TrimEndDropsBlank(rt: Runtime, s: string)
    ensures IsBlank(rt, s[|TrimEnd(rt, s)|..])
    decreases |s|
  {
    if |s| > 0 && IsSpace(rt, s[|s| - 1]) {
      var s' := s[..|s| - 1];
      TrimEndDropsBlank(rt, s');
      var k := |TrimEnd(rt, s)|;
      assert s[k..] == s'[k..] + [s[|s| - 1]];
    }
  }

  /** A trailing whitespace character is dropped with the rest. */
  lemma TrimEndSpace(rt: Runtime, s: string, c: char)
    requires IsSpace(rt, c)
    ensures TrimEnd(rt, s + [c]) == TrimEnd(rt, s)
  {
    assert (s + [c])[..|s|] == s;
  }

  /** Drops whitespace at both ends (Python `strip()`, JavaScript and Rust `trim`). */
  function Trim(rt: Runtime, s: string): (r: string)
    ensures |r| <= |s|
    ensures |r| > 0 ==> !IsSpace(rt, r[0]) && !IsSpace(rt, r[|r| - 1])
  {
    TrimEnd(rt, TrimStart(rt, s))
  }

  /** Trimming leaves a string alone when neither end is whitespace. */
  lemma TrimUnchanged(rt: Runtime, s: string)
    requires |s| > 0 ==> !IsSpace(rt, s[0]) && !IsSpace(rt, s[|s| - 1])
    ensures TrimStart(rt, s) == s && Trim(rt, s) == s
  {
    if |s| > 0 {
      TrimStartKeeps(rt, s);
      TrimEndKeeps(rt, s);
    }
  }

  /** A string that does not end in whitespace keeps its end. */
  lemma TrimEndKeeps(rt: Runtime, s: string)
    requires |s| > 0 && !IsSpace(rt, s[|s| - 1])
    ensures TrimEnd(rt, s) == s
  {
  }

  /** A string that does not start with whitespace keeps its start. */
  lemma TrimStartKeeps(rt: Runtime, s: string)
    requires |s| > 0 && !IsSpace(rt, s[0])
    ensures TrimStart(rt, s) == s
  {
  }

  /** The trimmed text is the part of `s` after its leading whitespace, up
      to its trailing whitespace. */
  lemma TrimIsInfix(rt: Runtime, s: string)
    ensures var k := |s| - |TrimStart(rt, s)|;
      k + |Trim(rt, s)| <= |s| && s[k..k + |Trim(rt, s)|] == Trim(rt, s)
  {
    TrimInfixAt(rt, s, TrimStart(rt, s), Trim(rt, s));
  }

  /** `TrimIsInfix` about the named results of the two trimming steps. */
  lemma TrimInfixAt(rt: Runtime, s: string, t: string, u: string)
    requires t == TrimStart(rt, s) && u == Trim(rt, s)
    ensures |s| - |t| + |u| <= |s| && s[|s| - |t|..|s| - |t| + |u|] == u
  {
    assert u == TrimEnd(rt, t);
    PrefixOfSuffix(s, t, u);
  }

  /** A prefix `u` of a suffix `t` of `s` sits in `s` where `t` starts. */
  lemma PrefixOfSuffix(s: string, t: string, u: string)
    requires |t| <= |s| && t == s[|s| - |t|..]
    requires |u| <= |t| && u == t[..|u|]
    ensures s[|s| - |t|..|s| - |t| + |u|] == u
  {
  }

  /** Trimming twice is trimming once. */
  lemma TrimIdempotent(rt: Runtime, s: string)
    ensures Trim(rt, Trim(rt, s)) == Trim(rt, s)
  {
    TrimUnchanged(rt, Trim(rt, s));
  }

  /** A string trims to nothing exactly when it is entirely whitespace. */
  lemma TrimEmptyIffBlank(rt: Runtime, s: string)
    ensures Trim(rt, s) == [] <==> IsBlank(rt, s)
  {
    if Trim(rt, s) == [] {
      var a := TrimStart(rt, s);
      TrimStartDropsBlank(rt, s);
      assert IsBlank(rt, a) by {
        TrimEndDropsBlank(rt, a);
        assert TrimEnd(rt, a) == [];
      }
      assert |a| == 0;
      assert s[..|s|] == s;
    }
  }

  /** Appending a character after a string that does not trim to nothing
      appends it after the trimmed start. */
  lemma {:induction false} TrimStartAppend(rt: Runtime, s: string, c: char)
    ensures TrimStart(rt, s + [c]) == if TrimStart(rt, s) == [] then TrimStart(rt, [c]) else TrimStart(rt, s) + [c]
    decreases |s|
  {
    if |s| == 0 {
      assert s + [c] == [c];
    } else if IsSpace(rt, s[0]) {
      assert (s + [c])[1..] == s[1..] + [c];
      TrimStartAppend(rt, s[1..], c);
    }
  }

  /** Python's `strip` removes the information separators U+001C..U+001F,
      which JavaScript's and Rust's `trim` keep: `"a\x1f".strip()` is `"a"`,
      while `"a\x1f".trim()` still ends in the separator. */
  lemma SeparatorTrimmedOnlyByPython(s: string, c: char)
    requires IsSeparator(c)
    ensures Trim(Python, s + [c]) == Trim(Python, s)
    ensures var t := Trim(JavaScript, s + [c]); |t| > 0 && t[|t| - 1] == c
    ensures var t := Trim(Rust, s + [c]); |t| > 0 && t[|t| - 1] == c
  {
    SeparatorSpaceOnlyInPython(c);
    PythonStripsSpace(s, c);
    TrimKeepsNonSpace(JavaScript, s, c);
    TrimKeepsNonSpace(Rust, s, c);
  }

  /** An information separator is whitespace to Python alone. */
  lemma SeparatorSpaceOnlyInPython(c: char)
    requires IsSeparator(c)
    ensures IsSpace(Python, c) && !IsSpace(JavaScript, c) && !IsSpace(Rust, c)
  {
  }

  /** A whitespace character appended is trimmed away with the rest. */
  lemma PythonStripsSpace(s: string, c: char)
    requires IsSpace(Python, c)
    ensures Trim(Python, s + [c]) == Trim(Python, s)
  {
    TrimStartAppend(Python, s, c);
    if TrimStart(Python, s) == [] {
      assert TrimStart(Python, [c]) == TrimStart(Python, [c][1..]);
      assert [c][1..] == [];
    } else {
      TrimEndSpace(Python, TrimStart(Python, s), c);
    }
  }

  /** A character that is not whitespace, appended, ends the trimmed text. */
  lemma TrimKeepsNonSpace(rt: Runtime, s: string, c: char)
    requires !IsSpace(rt, c)
    ensures var t := Trim(rt, s + [c]); |t| > 0 && t[|t| - 1] == c
  {
    TrimStartAppend(rt, s, c);
    assert TrimStart(rt, [c]) == [c];
    var u := TrimStart(rt, s + [c]);
    assert |u| > 0 && u[|u| - 1] == c;
    assert TrimEnd(rt, u) == u;
  }

  // ---------------------------------------------------------------------------
  // Prefixes, suffixes, substrings

  predicate StartsWith(s: string, p: string) {
    |p| <= |s| && s[..|p|] == p
  }

  predicate EndsWith(s: string, p: string) {
    |p| <= |s| && s[|s| - |p|..] == p
  }

  /** `s` contains `pat` as a contiguous substring (JavaScript `includes`,
      Python `in`, Rust `contains`). */
  predicate Contains(s: string, pat: string)
    decreases |s|
  {
    StartsWith(s, pat) || (|s| > 0 && Contains(s[1..], pat))
  }

  /** Index of the first occurrence of `pat` in `s`, if any. */
  function FindFirst(s: string, pat: string): (r: Option<nat>)
    ensures r.Some? ==> r.value + |pat| <= |s| && s[r.value..r.value + |pat|] == pat
    ensures r.Some? <==> Contains(s, pat)
    ensures r.Some? ==> forall j :: 0 <= j < r.value ==> !StartsWith(s[j..], pat)
    decreases |s|
  {
    if StartsWith(s, pat) then
      assert s[0..|pat|] == s[..|pat|];
      Some(0)
    else if |s| == 0 then None
    else match FindFirst(s[1..], pat)
      case None => None
      case Some(i) =>
        FindFirstShift(s, pat, i);
        Some(i + 1)
  }

  /** A first match at `i` in `s[1..]`, when `s` itself does not start with
      the pattern, is a first match at `i + 1` in `s`. */
  lemma FindFirstShift(s: string, pat: string, i: nat)
    requires |s| > 0 && !StartsWith(s, pat)
    requires i + |pat| <= |s[1..]| && s[1..][i..i + |pat|] == pat
    requires forall j :: 0 <= j < i ==> !StartsWith(s[1..][j..], pat)
    ensures i + 1 + |pat| <= |s| && s[i + 1..i + 1 + |pat|] == pat
    ensures forall j :: 0 <= j < i + 1 ==> !StartsWith(s[j..], pat)
  {
    assert s[i + 1..i + 1 + |pat|] == s[1..][i..i + |pat|];
    forall j | 0 <= j < i + 1
      ensures !StartsWith(s[j..], pat)
    {
      if j == 0 {
        assert s[0..] == s;
      } else {
        assert s[j..] == s[1..][j - 1..];
      }
    }
  }

  /** A witness position makes `Contains` true. */
  lemma ContainsAt(s: string, pat: string, i: nat)
    requires i + |pat| <= |s| && s[i..i + |pat|] == pat
    ensures Contains(s, pat)
    decreases i
  {
    if i > 0 {
      assert s[1..][i - 1..i - 1 + |pat|] == pat;
      ContainsAt(s[1..], pat, i - 1);
    }
  }

  /** A slice of a slice is a slice. */
  lemma SliceOfSlice(o: string, lo: nat, hi: nat, i: nat, j: nat)
    requires lo <= hi <= |o| && i <= j <= hi - lo
    ensures o[lo..hi][i..j] == o[lo + i..lo + j]
  {
    assert |o[lo..hi][i..j]| == |o[lo + i..lo + j]|;
    forall m | 0 <= m < j - i
      ensures o[lo..hi][i..j][m] == o[lo + i..lo + j][m]
    {
      assert o[lo..hi][i..j][m] == o[lo..hi][i + m] == o[lo + i + m];
    }
  }

  /** What occurs in a slice of `o` occurs in `o`. */
  lemma ContainsInSlice(o: string, lo: nat, hi: nat, t: string)
    requires lo <= hi <= |o| && Contains(o[lo..hi], t)
    ensures Contains(o, t)
  {
    var i := FindFirst(o[lo..hi], t).value;
    SliceOfSlice(o, lo, hi, i, i + |t|);
    ContainsAt(o, t, lo + i);
  }

  /** A string contains its trimmed form. */
  lemma TrimOccurs(rt: Runtime, s: string)
    ensures Contains(s, Trim(rt, s))
  {
    TrimIsInfix(rt, s);
    ContainsAt(s, Trim(rt, s), |s| - |TrimStart(rt, s)|);
  }

  /** JavaScript `s.replace(pat, rep)` with a string pattern: only the first
      occurrence is replaced, and a missing pattern leaves `s` unchanged. */
  function ReplaceFirst(s: string, pat: string, rep: string): (r: string)
    ensures !Contains(s, pat) ==> r == s
    ensures Contains(s, pat) ==> exists i :: 0 <= i <= |s| - |pat| && s[i..i + |pat|] == pat && r == s[..i] + rep + s[i + |pat|..]
  {
    match FindFirst(s, pat)
    case None => s
    case Some(i) => s[..i] + rep + s[i + |pat|..]
  }

  // ---------------------------------------------------------------------------
  // Splitting and joining on one character

  /** Position of the first `c` in `s`, or `|s|` when there is none. */
  function IndexOf(s: string, c: char): (i: nat)
    ensures i <= |s|
    ensures i < |s| ==> s[i] == c
    ensures forall j :: 0 <= j < i ==> s[j] != c
    decreases |s|
  {
    if |s| == 0 then 0
    else if s[0] == c then 0
    else 1 + IndexOf(s[1..], c)
  }

  /** Python `s.split(c)` and JavaScript `s.split(c)` for a one-character
      separator: never empty, and no piece contains the separator. */
  function Split(s: string, c: char): (parts: seq<string>)
    ensures |parts| >= 1
    decreases |s|
  {
    var i := IndexOf(s, c);
    if i == |s| then [s] else [s[..i]] + Split(s[i + 1..], c)
  }

  /** No piece of a split contains the separator. */
  lemma {:induction false} SplitPiecesFree(s: string, c: char)
    ensures forall k :: 0 <= k < |Split(s, c)| ==> c !in Split(s, c)[k]
    decreases |s|
  {
    var i := IndexOf(s, c);
    if i == |s| {
      assert s[..i] == s;
      assert c !in s[..i];
    } else {
      SplitPiecesFree(s[i + 1..], c);
      assert c !in s[..i];
    }
  }

  /** Python `c.join(parts)` and JavaScript `parts.join(c)`. */
  function Join(parts: seq<string>, c: char): string
    decreases |parts|
  {
    if |parts| == 0 then ""
    else if |parts| == 1 then parts[0]
    else parts[0] + [c] + Join(parts[1..], c)
  }

  /** Joining the pieces of a split gives back the original string. */
  lemma {:induction false} JoinSplit(s: string, c: char)
    ensures Join(Split(s, c), c) == s
    decreases |s|
  {
    var i := IndexOf(s, c);
    if i < |s| {
      var rest := s[i + 1..];
      JoinSplit(rest, c);
      JoinCons(s[..i], Split(rest, c), c);
      assert s == s[..i] + [c] + rest;
    }
  }

  /** Joining a piece in front of at least one more piece puts a separator
      between them. */
  lemma JoinCons(p: string, rest: seq<string>, c: char)
    requires |rest| >= 1
    ensures Join([p] + rest, c) == p + [c] + Join(rest, c)
  {
    assert ([p] + rest)[1..] == rest;
  }

  lemma IndexOfJoin(a: string, b: string, c: char)
    requires c !in a
    ensures IndexOf(a + [c] + b, c) == |a|
  {
    var s := a + [c] + b;
    assert s[..|a|] == a;
    assert s[|a|] == c;
  }

  /** Splitting a join of separator-free pieces gives the pieces back. */
  lemma {:induction false} SplitJoin(parts: seq<string>, c: char)
    requires |parts| >= 1
    requires forall k :: 0 <= k < |parts| ==> c !in parts[k]
    ensures Split(Join(parts, c), c) == parts
    decreases |parts|
  {
    if |parts| == 1 {
      assert parts[0][..IndexOf(parts[0], c)] == parts[0][..|parts[0]|];
    } else {
      var s := Join(parts, c);
      IndexOfJoin(parts[0], Join(parts[1..], c), c);
      assert s[..|parts[0]|] == parts[0];
      assert s[|parts[0]| + 1..] == Join(parts[1..], c);
      SplitJoin(parts[1..], c);
    }
  }

  /** Joining two non-empty lists of pieces puts one separator between them. */
  lemma {:induction false} JoinAppend(a: seq<string>, b: seq<string>, c: char)
    requires |a| > 0 && |b| > 0
    ensures Join(a + b, c) == Join(a, c) + [c] + Join(b, c)
    decreases |a|
  {
    if |a| == 1 {
      assert (a + b)[1..] == b;
    } else {
      JoinAppend(a[1..], b, c);
      assert (a + b)[1..] == a[1..] + b;
    }
  }

  /** Splitting is local: the pieces of `s c t` are those of `s` followed
      by those of `t`. */
  lemma SplitConcat(s: string, t: string, c: char)
    ensures Split(s + [c] + t, c) == Split(s, c) + Split(t, c)
  {
    var ps, pt := Split(s, c), Split(t, c);
    assert Join(ps + pt, c) == s + [c] + t by {
      JoinSplit(s, c);
      JoinSplit(t, c);
      assert |ps| > 0 && |pt| > 0;
      JoinAppend(ps, pt, c);
    }
    PiecesFreeAppend(s, t, c);
    SplitJoin(ps + pt, c);
  }

  lemma PiecesFreeAppend(s: string, t: string, c: char)
    ensures forall k :: 0 <= k < |Split(s, c) + Split(t, c)| ==> c !in (Split(s, c) + Split(t, c))[k]
  {
    var ps, pt := Split(s, c), Split(t, c);
    SplitPiecesFree(s, c);
    SplitPiecesFree(t, c);
    forall k | 0 <= k < |ps + pt|
      ensures c !in (ps + pt)[k]
    {
      if k < |ps| { assert (ps + pt)[k] == ps[k]; } else { assert (ps + pt)[k] == pt[k - |ps|]; }
    }
  }

  /** The text after the last `c` in `s`, or all of `s` when there is
      none. */
  function LastSegment(s: string, c: char): string
    decreases |s|
  {
    var i := IndexOf(s, c);
    if i == |s| then s else LastSegment(s[i + 1..], c)
  }

  /** The last segment is JavaScript's `s.split(c).pop()`: the last piece
      of the split. */
  lemma {:induction false} LastSegmentIsLastPiece(s: string, c: char)
    ensures LastSegment(s, c) == Split(s, c)[|Split(s, c)| - 1]
    decreases |s|
  {
    var i := IndexOf(s, c);
    if i < |s| {
      var rest := s[i + 1..];
      LastSegmentIsLastPiece(rest, c);
      var tail := Split(rest, c);
      assert Split(s, c) == [s[..i]] + tail;
      assert ([s[..i]] + tail)[|tail|] == tail[|tail| - 1];
    }
  }

  /** The last segment is a separator-free suffix of `s`, preceded by `c`
      unless it is the whole string. */
  lemma LastSegmentShape(s: string, c: char)
    ensures var r := LastSegment(s, c);
      && c !in r
      && EndsWith(s, r)
      && (|r| == |s| || s[|s| - |r| - 1] == c)
      && (c !in s ==> r == s)
  {
    LastSegmentSuffix(s, c);
    LastSegmentFree(s, c);
    if c !in s {
      assert IndexOf(s, c) == |s|;
    }
  }

  lemma {:induction false} LastSegmentFree(s: string, c: char)
    ensures c !in LastSegment(s, c)
    decreases |s|
  {
    var i := IndexOf(s, c);
    if i < |s| {
      LastSegmentFree(s[i + 1..], c);
    } else {
      assert forall j :: 0 <= j < |s| ==> s[j] != c;
    }
  }

  lemma {:induction false} LastSegmentSuffix(s: string, c: char)
    ensures var r := LastSegment(s, c);
      EndsWith(s, r) && (|r| == |s| || s[|s| - |r| - 1] == c)
    decreases |s|
  {
    var i := IndexOf(s, c);
    if i < |s| {
      var rest := s[i + 1..];
      assert LastSegment(s, c) == LastSegment(rest, c);
      LastSegmentSuffix(rest, c);
      SuffixOfRest(s, i, LastSegment(rest, c), c);
    } else {
      assert LastSegment(s, c) == s;
      assert s[|s| - |s|..] == s;
    }
  }

  /** A suffix of the text after position `i`, where `s[i] == c`, is a
      suffix of `s`, preceded by `c` when it is the whole rest. */
  lemma SuffixOfRest(s: string, i: nat, r: string, c: char)
    requires i < |s| && s[i] == c
    requires var rest := s[i + 1..]; EndsWith(rest, r) && (|r| == |rest| || rest[|rest| - |r| - 1] == c)
    ensures EndsWith(s, r) && (|r| == |s| || s[|s| - |r| - 1] == c)
  {
    var rest := s[i + 1..];
    assert s[|s| - |r|..] == rest[|rest| - |r|..];
    if |r| < |rest| {
      assert s[|s| - |r| - 1] == rest[|rest| - |r| - 1];
    }
  }

  // ---------------------------------------------------------------------------
  // Repetition and centring

  function Repeat(c: char, n: nat): (r: string)
    ensures |r| == n
    ensures forall i :: 0 <= i < n ==> r[i] == c
  {
    seq(n, _ => c)
  }

  /** Python `s.center(width)`: pads with spaces to `width`. The two pads
      differ by at most one space; when they differ, the extra space goes on
      the left exactly when the padding and the width are both odd. */
  function Center(s: string, width: nat): (r: string)
    ensures |r| == if |s| >= width then |s| else width
    ensures |s| >= width ==> r == s
    ensures |s| < width ==> exists left, right ::
      && left + right == width - |s|
      && right - 1 <= left <= right + 1
      && (left > right <==> (width - |s|) % 2 == 1 && width % 2 == 1)
      && r == Repeat(' ', left) + s + Repeat(' ', right)
  {
    if |s| >= width then s
    else
      var marg := width - |s|;
      var left := marg / 2 + (if marg % 2 == 1 && width % 2 == 1 then 1 else 0);
      Repeat(' ', left) + s + Repeat(' ', marg - left)
  }

  /** In an odd width the left pad is the larger half of the padding and
      the right pad the smaller. */
  lemma CenterOddWidth(s: string, width: nat)
    requires width % 2 == 1 && |s| <= width
    ensures Center(s, width) == Repeat(' ', (width + 1 - |s|) / 2) + s + Repeat(' ', (width - |s|) / 2)
  {
    if |s| == width {
      assert Repeat(' ', 0) == [];
      assert Center(s, width) == Repeat(' ', 0) + s + Repeat(' ', 0);
    } else {
      var marg := width - |s|;
      assert marg / 2 + (if marg % 2 == 1 then 1 else 0) == (width + 1 - |s|) / 2;
      assert marg - (width + 1 - |s|) / 2 == (width - |s|) / 2;
    }
  }

  // ---------------------------------------------------------------------------
  // Decimal rendering and parsing

  function DigitValue(c: char): nat
    requires IsDigit(c)
  {
    (c as int) - ('0' as int)
  }

  function HexDigitValue(c: char): nat
    requires IsHexDigit(c)
  {
    if IsDigit(c) then DigitValue(c)
    else if 'a' <= c <= 'f' then (c as int) - ('a' as int) + 10
    else (c as int) - ('A' as int) + 10
  }

  function DigitChar(d: nat): (c: char)
    requires d < 10
    ensures IsDigit(c) && DigitValue(c) == d
  {
    (('0' as int) + d) as char
  }

  /** Value of a string of decimal digits, most significant first. */
  function DecValue(s: string): nat
    requires AllDigits(s)
    decreases |s|
  {
    if |s| == 0 then 0 else 10 * DecValue(s[..|s| - 1]) + DigitValue(s[|s| - 1])
  }

  /** Value of a string of hexadecimal digits, most significant first. */
  function HexValue(s: string): nat
    requires AllHexDigits(s)
    decreases |s|
  {
    if |s| == 0 then 0 else 16 * HexValue(s[..|s| - 1]) + HexDigitValue(s[|s| - 1])
  }

  /** Decimal rendering of a natural number, without leading zeros. */
  function NatToString(n: nat): (r: string)
    ensures |r| >= 1 && AllDigits(r)
    ensures |r| > 1 ==> r[0] != '0'
    decreases n
  {
    if n < 10 then [DigitChar(n)] else NatToString(n / 10) + [DigitChar(n % 10)]
  }

  /** Decimal rendering of an integer as Python and Rust print it, and as
      JavaScript prints a Number holding an integer below 10^21 in
      magnitude. */
  function IntToString(n: int): (r: string)
    ensures |r| >= 1
    ensures n >= 0 ==> r == NatToString(n)
    ensures n < 0 ==> r == "-" + NatToString(-n)
  {
    if n >= 0 then NatToString(n) else "-" + NatToString(-n)
  }

  /** Rendering a number and reading its digits back gives the number. */
  lemma {:induction false} DecValueOfNatToString(n: nat)
    ensures DecValue(NatToString(n)) == n
    decreases n
  {
    if n >= 10 {
      DecValueOfNatToString(n / 10);
      var s := NatToString(n);
      assert s[..|s| - 1] == NatToString(n / 10);
    }
  }

  /** Length of the longest prefix of `s` made of decimal digits. */
  function DigitPrefixLen(s: string): (k: nat)
    ensures k <= |s| && AllDigits(s[..k])
    ensures k < |s| ==> !IsDigit(s[k])
    decreases |s|
  {
    if |s| > 0 && IsDigit(s[0]) then
      var k := DigitPrefixLen(s[1..]);
      assert s[..k + 1] == [s[0]] + s[1..][..k];
      k + 1
    else 0
  }

  /** Length of the longest prefix of `s` made of hexadecimal digits. */
  function HexPrefixLen(s: string): (k: nat)
    ensures k <= |s| && AllHexDigits(s[..k])
    ensures k < |s| ==> !IsHexDigit(s[k])
    decreases |s|
  {
    if |s| > 0 && IsHexDigit(s[0]) then
      var k := HexPrefixLen(s[1..]);
      assert s[..k + 1] == [s[0]] + s[1..][..k];
      k + 1
    else 0
  }

  /** Splits an optional leading sign off `s`. */
  function SignAndRest(s: string): (int, string) {
    if |s| > 0 && s[0] == '-' then (-1, s[1..])
    else if |s| > 0 && s[0] == '+' then (1, s[1..])
    else (1, s)
  }

  /** JavaScript `parseInt(s)` without a radix: leading whitespace, an
      optional sign, then the digits `JsParseDigits` reads; `None` stands for
      `NaN` (no digit at all). */
  function JsParseInt(s: string): Option<int> {
    var (sign, u) := SignAndRest(TrimStart(JavaScript, s));
    match JsParseDigits(u)
    case None => None
    case Some(v) => Some(sign * v)
  }

  /** The unsigned part of `parseInt`: `0x`/`0X` and hexadecimal digits, or
      decimal digits; reading stops at the first character that does not
      fit. */
  function JsParseDigits(u: string): Option<nat> {
    if |u| >= 2 && u[0] == '0' && (u[1] == 'x' || u[1] == 'X') then
      var k := HexPrefixLen(u[2..]);
      if k == 0 then None else Some(HexValue(u[2..][..k]))
    else
      var k := DigitPrefixLen(u);
      if k == 0 then None else Some(DecValue(u[..k]))
  }

  /** JavaScript `parseInt(s)` as a Number: `NaN` when no digit is read,
      otherwise the integer read, rounded to a double. */
  function JsParseNumber(s: string): (d: JsMath.Number)
    ensures d.NaN? <==> JsParseInt(s).None?
    ensures JsParseInt(s).Some? ==> d == JsMath.ToNumber(JsParseInt(s).value)
  {
    match JsParseInt(s)
    case None => JsMath.NaN
    case Some(v) => JsMath.ToNumber(v)
  }

  /** The digits Python's `int()` accepts: decimal digits, with single
      underscores allowed between two of them (`1_000`, but not `_1`, `1_`
      or `1__0`). */
  predicate PyDigits(u: string) {
    && |u| > 0 && IsDigit(u[0]) && IsDigit(u[|u| - 1])
    && (forall i :: 0 <= i < |u| ==> IsDigit(u[i]) || u[i] == '_')
    && (forall i :: 0 <= i < |u| - 1 ==> u[i] == '_' ==> u[i + 1] != '_')
  }

  /** `u` without its underscores. */
  function DropUnderscores(u: string): (r: string)
    ensures (forall i :: 0 <= i < |u| ==> IsDigit(u[i]) || u[i] == '_') ==> AllDigits(r)
    ensures AllDigits(u) ==> r == u
    decreases |u|
  {
    if |u| == 0 then ""
    else (if u[0] == '_' then "" else [u[0]]) + DropUnderscores(u[1..])
  }

  /** Python `int(s)` for a string: surrounding whitespace, an optional sign
      and the digits `PyDigits` accepts, nothing else; the value ignores
      the underscores. `None` is the `ValueError` case. */
  function PyInt(s: string): Option<int> {
    var (sign, u) := SignAndRest(Trim(Python, s));
    if PyDigits(u) then Some(sign * DecValue(DropUnderscores(u))) else None
  }

  /** An underscore between digits is read past: `int("1_000")` is
      `int("1000")`. */
  lemma PyIntUnderscore(a: string, b: string)
    requires |a| > 0 && AllDigits(a) && |b| > 0 && AllDigits(b)
    ensures PyInt(a + "_" + b) == PyInt(a + b) == Some(DecValue(a + b))
  {
    var u, w := a + "_" + b, a + b;
    assert u[0] == w[0] == a[0] && u[|u| - 1] == w[|w| - 1] == b[|b| - 1];
    PyIntOfUnsigned(u);
    PyIntOfUnsigned(w);
    PlainDigitsForPython(w);
    UnderscoreJoinIsPyDigits(a, b);
    DropUnderscoreJoin(a, b);
  }

  lemma DropUnderscoreJoin(a: string, b: string)
    requires AllDigits(a) && AllDigits(b)
    ensures DropUnderscores(a + "_" + b) == a + b
  {
    DropUnderscoresAppend(a + "_", b);
    DropUnderscoresAppend(a, "_");
    var under: string := "_";
    assert DropUnderscores(under) == "" by {
      assert under[1..] == "";
    }
    assert DropUnderscores(a + "_") == a;
  }

  /** Two underscores in a row are refused: `int("1__0")` raises. */
  lemma PyIntDoubleUnderscore(a: string, b: string)
    requires |a| > 0 && AllDigits(a) && |b| > 0 && AllDigits(b)
    ensures PyInt(a + "__" + b).None?
  {
    var v := a + "__" + b;
    assert v[0] == a[0] && v[|v| - 1] == b[|b| - 1];
    PyIntOfUnsigned(v);
    assert v[|a|] == '_' && v[|a| + 1] == '_';
  }

  lemma UnderscoreJoinIsPyDigits(a: string, b: string)
    requires |a| > 0 && AllDigits(a) && |b| > 0 && AllDigits(b)
    ensures PyDigits(a + "_" + b)
  {
    var u := a + "_" + b;
    forall i | 0 <= i < |u|
      ensures (IsDigit(u[i]) || u[i] == '_') && (u[i] == '_' <==> i == |a|)
    {
      if i < |a| {
        assert u[i] == a[i];
      } else if i > |a| {
        assert u[i] == b[i - |a| - 1];
      }
    }
  }

  lemma {:induction false} DropUnderscoresAppend(x: string, y: string)
    ensures DropUnderscores(x + y) == DropUnderscores(x) + DropUnderscores(y)
    decreases |x|
  {
    if |x| > 0 {
      DropUnderscoresAppend(x[1..], y);
      assert (x + y)[0] == x[0] && (x + y)[1..] == x[1..] + y;
      var head: string := if x[0] == '_' then "" else [x[0]];
      assert DropUnderscores(x + y) == head + (DropUnderscores(x[1..]) + DropUnderscores(y));
    } else {
      assert x + y == y;
    }
  }

  /** A text that starts with a digit and ends with one has no whitespace
      or sign to split off. */
  lemma PyIntOfUnsigned(u: string)
    requires |u| > 0 && IsDigit(u[0]) && IsDigit(u[|u| - 1])
    ensures PyInt(u) == if PyDigits(u) then Some(DecValue(DropUnderscores(u))) else None
  {
    SpaceIsNotDigit(Python, u[0]);
    SpaceIsNotDigit(Python, u[|u| - 1]);
    TrimUnchanged(Python, u);
    assert SignAndRest(Trim(Python, u)) == (1, u);
  }

  lemma SpaceIsNotDigit(rt: Runtime, c: char)
    requires IsDigit(c)
    ensures !IsSpace(rt, c)
  {
  }

  /** A string of digits is its own longest digit prefix. */
  lemma DigitPrefixLenAll(s: string)
    requires AllDigits(s)
    ensures DigitPrefixLen(s) == |s|
    decreases |s|
  {
    if |s| > 0 {
      DigitPrefixLenAll(s[1..]);
    }
  }

  /** The printed form of an integer has no surrounding whitespace, and its
      sign splits off as `SignAndRest` expects. */
  lemma IntToStringShape(rt: Runtime, n: int)
    ensures TrimStart(rt, IntToString(n)) == IntToString(n)
    ensures Trim(rt, IntToString(n)) == IntToString(n)
    ensures SignAndRest(IntToString(n)) == (if n >= 0 then 1 else -1, NatToString(if n >= 0 then n else -n))
  {
    var digits := NatToString(if n >= 0 then n else -n);
    var s := IntToString(n);
    assert IsDigit(digits[0]) && IsDigit(digits[|digits| - 1]);
    assert s[|s| - 1] == digits[|digits| - 1];
    assert s[0] == '-' || s[0] == digits[0];
    assert !IsSpace(rt, s[0]) && !IsSpace(rt, s[|s| - 1]);
    TrimUnchanged(rt, s);
  }

  /** `parseInt` reads the decimal rendering of every integer exactly; the
      Number it gives is that integer rounded to a double, which below 2^53
      in magnitude is the integer itself. */
  lemma JsParseIntOfIntToString(n: int)
    ensures JsParseInt(IntToString(n)) == Some(n)
    ensures JsParseNumber(IntToString(n)) == JsMath.ToNumber(n)
    ensures -JsMath.TwoTo53 < n < JsMath.TwoTo53 ==> JsParseNumber(IntToString(n)) == JsMath.Finite(n)
  {
    IntToStringShape(JavaScript, n);
    JsParseDigitsOfNatToString(if n >= 0 then n else -n);
  }

  lemma JsParseDigitsOfNatToString(a: nat)
    ensures JsParseDigits(NatToString(a)) == Some(a)
  {
    var digits := NatToString(a);
    assert |digits| >= 2 ==> digits[0] != '0';
    DigitPrefixLenAll(digits);
    assert digits[..|digits|] == digits;
    DecValueOfNatToString(a);
  }

  /** Python's `int()` reads back every integer that `str(n)` prints. */
  lemma PyIntOfIntToString(n: int)
    ensures PyInt(IntToString(n)) == Some(n)
  {
    var m := if n >= 0 then n else -n;
    var digits := NatToString(m);
    IntToStringShape(Python, n);
    PlainDigitsForPython(digits);
    DecValueOfNatToString(m);
    var (sign, u) := SignAndRest(Trim(Python, IntToString(n)));
    assert u == digits && sign * m == n;
  }

  /** Plain digits are accepted by Python's `int()` as they are. */
  lemma PlainDigitsForPython(d: string)
    requires |d| > 0 && AllDigits(d)
    ensures PyDigits(d) && DropUnderscores(d) == d
  {
    assert IsDigit(d[0]) && IsDigit(d[|d| - 1]);
  }

  // ---------------------------------------------------------------------------
  // File-name idioms of the TypeScript code

  /** `path.split('\\').pop() || path.split('/').pop() || path`: the text after
      the last backslash; only when that is empty, the text after the last
      slash; only when that is empty too, the whole path. */
  function Basename(path: string): string {
    var afterBackslash := LastSegment(path, '\\');
    if afterBackslash != "" then afterBackslash
    else
      var afterSlash := LastSegment(path, '/');
      if afterSlash != "" then afterSlash else path
  }

  /** A trailing `.pdf` in any letter case, as the regular expression
      `/\.pdf$/i` matches it. */
  predicate EndsWithPdfIgnoreCase(path: string) {
    |path| >= 4 && Lower(path[|path| - 4..]) == ".pdf"
  }
}
