/**
 * The Python string primitives the two scripts rely on: `str.strip` and
 * `bytes.strip`, `str.splitlines`, `str.join`, `str.endswith`, and the
 * character classes `isupper`, `islower`, `isdigit`, `isalnum` and `lower`.
 * Whitespace and line boundaries follow Python's own tables; the character
 * classes and `lower` cover ASCII only.
 */
module Text {

  newtype byte = x: int | 0 <= x < 256

  type Bytes = seq<byte>

  // ---------------------------------------------------------------------------
  // Character tables
  // ---------------------------------------------------------------------------

  /** `str.isspace`: the characters `str.strip()` removes. */
  predicate IsSpace(c: char) {
    c == ' ' || ('\t' <= c <= '\r') || ('\U{1c}' <= c <= '\U{1f}')
    || c == '\U{85}' || c == '\U{a0}' || c == '\U{1680}'
    || ('\U{2000}' <= c <= '\U{200a}') || c == '\U{2028}' || c == '\U{2029}'
    || c == '\U{202f}' || c == '\U{205f}' || c == '\U{3000}'
  }

  /**
   * `bytes.isspace`: the bytes `bytes.strip()` removes (space, \t, \n, \v,
   * \f, \r). They are the ASCII `str` whitespace characters other than the
   * four separators \x1c-\x1f.
   */
  predicate IsByteSpace(b: byte)
    ensures IsByteSpace(b) <==> b < 128 && IsSpace(b as int as char) && !(28 <= b <= 31)
  {
    b == 32 || 9 <= b <= 13
  }

  /**
   * The line boundaries of `str.splitlines()`; "\r\n" counts as one boundary.
   * Every one is whitespace, and among ASCII characters they are the
   * whitespace other than space, tab and \x1f.
   */
  predicate IsLineBreak(c: char)
    ensures IsLineBreak(c) ==> IsSpace(c)
    ensures c as int < 128 ==> (IsLineBreak(c) <==> IsSpace(c) && c != ' ' && c != '\t' && c != '\U{1f}')
  {
    ('\n' <= c <= '\r') || ('\U{1c}' <= c <= '\U{1e}')
    || c == '\U{85}' || c == '\U{2028}' || c == '\U{2029}'
  }

  predicate NoLineBreak(s: string) {
    forall k :: 0 <= k < |s| ==> !IsLineBreak(s[k])
  }

  predicate IsUpper(c: char) { 'A' <= c <= 'Z' }

  predicate IsLower(c: char) { 'a' <= c <= 'z' }

  predicate IsDigit(c: char) { '0' <= c <= '9' }

  predicate IsAlnum(c: char) { IsUpper(c) || IsLower(c) || IsDigit(c) }

  /**
   * The ASCII classes behind `isupper`, `islower`, `isdigit` and `isalnum`:
   * upper, lower and digit are disjoint, `isalnum` is their union, and no
   * alphanumeric character is `str` whitespace.
   */
  lemma CharClasses(c: char)
    ensures !(IsUpper(c) && IsLower(c)) && !(IsUpper(c) && IsDigit(c)) && !(IsLower(c) && IsDigit(c))
    ensures IsAlnum(c) <==> IsUpper(c) || IsLower(c) || IsDigit(c)
    ensures IsAlnum(c) ==> !IsSpace(c)
  {
  }

  /** `str.lower()` on ASCII: upper-case letters become lower-case, all else is kept. */
  function Lower(s: string): (r: string)
    ensures |r| == |s|
    ensures forall k :: 0 <= k < |s| ==> !IsUpper(r[k])
    ensures forall k :: 0 <= k < |s| && !IsUpper(s[k]) ==> r[k] == s[k]
    ensures forall k :: 0 <= k < |s| && IsUpper(s[k]) ==> IsLower(r[k]) && r[k] as int == s[k] as int + 32
  {
    seq(|s|, k requires 0 <= k < |s| => if IsUpper(s[k]) then (s[k] as int + 32) as char else s[k])
  }

  // ---------------------------------------------------------------------------
  // strip
  // ---------------------------------------------------------------------------

  /** The first index at or after `i` whose element does not satisfy `ws`, or `|s|`. */
  function SkipLeading<T>(s: seq<T>, ws: T -> bool, i: nat): (k: nat)
    requires i <= |s|
    ensures i <= k <= |s|
    ensures forall m :: i <= m < k ==> ws(s[m])
    ensures k < |s| ==> !ws(s[k])
    decreases |s| - i
  {
    if i == |s| || !ws(s[i]) then i else SkipLeading(s, ws, i + 1)
  }

  /** Going back from `j` no further than `i`, the end of the run of elements that satisfy `ws`. */
  function SkipTrailing<T>(s: seq<T>, ws: T -> bool, i: nat, j: nat): (k: nat)
    requires i <= j <= |s|
    ensures i <= k <= j
    ensures forall m :: k <= m < j ==> ws(s[m])
    ensures i < k ==> !ws(s[k - 1])
    decreases j
  {
    if j == i || !ws(s[j - 1]) then j else SkipTrailing(s, ws, i, j - 1)
  }

  /** Strips the leading and then the trailing elements that satisfy `ws`. */
  function Trim<T>(s: seq<T>, ws: T -> bool): (r: seq<T>)
  {
    var i := SkipLeading(s, ws, 0);
    s[i..SkipTrailing(s, ws, i, |s|)]
  }

  /** `str.strip()`: `s` without its leading and trailing whitespace. */
  function Strip(s: string): (r: string)
    ensures |r| <= |s|
    ensures r != [] ==> !IsSpace(r[0]) && !IsSpace(r[|r| - 1])
  {
    Trim(s, IsSpace)
  }

  /** `bytes.strip()`, as applied to each line of a binary table file. */
  function ByteStrip(s: Bytes): (r: Bytes)
    ensures |r| <= |s|
    ensures r != [] ==> !IsByteSpace(r[0]) && !IsByteSpace(r[|r| - 1])
  {
    Trim(s, IsByteSpace)
  }

  /**
   * What `strip` keeps is a slice of its input, and everything it cuts off
   * on either side is whitespace.
   */
  lemma StripKeepsSlice(s: string)
    ensures exists i, j :: 0 <= i <= j <= |s| && Strip(s) == s[i..j]
                           && (forall k :: 0 <= k < i ==> IsSpace(s[k]))
                           && (forall k :: j <= k < |s| ==> IsSpace(s[k]))
    ensures Strip(s) == [] <==> forall k :: 0 <= k < |s| ==> IsSpace(s[k])
  {
    var i := SkipLeading(s, IsSpace, 0);
    var j := SkipTrailing(s, IsSpace, i, |s|);
    assert Strip(s) == s[i..j];
    assert forall k :: 0 <= k < i ==> IsSpace(s[k]);
    assert forall k :: j <= k < |s| ==> IsSpace(s[k]);
  }

  /** The same for `bytes.strip`: in particular a line of whitespace only strips to `b""`. */
  lemma ByteStripKeepsSlice(s: Bytes)
    ensures exists i, j :: 0 <= i <= j <= |s| && ByteStrip(s) == s[i..j]
                           && (forall k :: 0 <= k < i ==> IsByteSpace(s[k]))
                           && (forall k :: j <= k < |s| ==> IsByteSpace(s[k]))
    ensures ByteStrip(s) == [] <==> forall k :: 0 <= k < |s| ==> IsByteSpace(s[k])
  {
    var i := SkipLeading(s, IsByteSpace, 0);
    var j := SkipTrailing(s, IsByteSpace, i, |s|);
    assert ByteStrip(s) == s[i..j];
    assert forall k :: 0 <= k < i ==> IsByteSpace(s[k]);
    assert forall k :: j <= k < |s| ==> IsByteSpace(s[k]);
  }

  /**
   * `bytes.strip` gives exactly `s[i..j]` when the part outside is whitespace
   * and the part inside starts and ends with a non-whitespace byte.
   */
  lemma ByteStripIsSlice(s: Bytes, i: nat, j: nat)
    requires i < j <= |s|
    requires forall k :: 0 <= k < i ==> IsByteSpace(s[k])
    requires forall k :: j <= k < |s| ==> IsByteSpace(s[k])
    requires !IsByteSpace(s[i]) && !IsByteSpace(s[j - 1])
    ensures ByteStrip(s) == s[i..j]
  {
    var i' := SkipLeading(s, IsByteSpace, 0);
    assert i' == i;
    var j' := SkipTrailing(s, IsByteSpace, i, |s|);
    assert j' == j;
  }

  /** A string is its own strip exactly when it is empty or has no whitespace at either end. */
  lemma StripFixpoint(s: string)
    ensures Strip(s) == s <==> (s == [] || (!IsSpace(s[0]) && !IsSpace(s[|s| - 1])))
  {
    if s != [] && !IsSpace(s[0]) && !IsSpace(s[|s| - 1]) {
      assert SkipLeading(s, IsSpace, 0) == 0;
      assert SkipTrailing(s, IsSpace, 0, |s|) == |s|;
    }
  }

  /** Stripping twice is stripping once. */
  lemma StripIdempotent(s: string)
    ensures Strip(Strip(s)) == Strip(s)
  {
    StripFixpoint(Strip(s));
  }

  /** The same for `bytes.strip`. */
  lemma ByteStripIdempotent(s: Bytes)
    ensures ByteStrip(ByteStrip(s)) == ByteStrip(s)
  {
    var r := ByteStrip(s);
    if r != [] {
      assert SkipLeading(r, IsByteSpace, 0) == 0;
      assert SkipTrailing(r, IsByteSpace, 0, |r|) == |r|;
    }
  }

  // ---------------------------------------------------------------------------
  // splitlines and join
  // ---------------------------------------------------------------------------

  /** The index of the first line boundary in `s` at or after `j`, or `|s|` when there is none. */
  function LineEndFrom(s: string, j: nat): (i: nat)
    requires j <= |s|
    ensures j <= i <= |s|
    ensures forall k :: j <= k < i ==> !IsLineBreak(s[k])
    ensures i < |s| ==> IsLineBreak(s[i])
    decreases |s| - j
  {
    if j == |s| || IsLineBreak(s[j]) then j else LineEndFrom(s, j + 1)
  }

  /** The index of the first line boundary in `s`, or `|s|` when there is none. */
  function LineEnd(s: string): (i: nat)
    ensures i <= |s|
    ensures forall k :: 0 <= k < i ==> !IsLineBreak(s[k])
    ensures i < |s| ==> IsLineBreak(s[i])
  {
    LineEndFrom(s, 0)
  }

  /**
   * `str.splitlines()`: the lines of `s` without their boundaries. "\r\n" is
   * a single boundary, and a boundary at the very end of `s` starts no
   * further (empty) line; the empty string has no lines.
   */
  function SplitLines(s: string): (lines: seq<string>)
    ensures forall l :: l in lines ==> NoLineBreak(l)
    ensures lines == [] <==> s == []
    decreases |s|
  {
    if s == [] then []
    else
      var i := LineEnd(s);
      if i == |s| then [s]
      else
        var next := if s[i] == '\r' && i + 1 < |s| && s[i + 1] == '\n' then i + 2 else i + 1;
        [s[..i]] + SplitLines(s[next..])
  }

  /** `str.endswith(suffix)`: the last `|suffix|` characters of `s` are those of `suffix`. */
  predicate EndsWith(s: string, suffix: string)
    ensures EndsWith(s, suffix) <==>
              |suffix| <= |s| && forall k :: 0 <= k < |suffix| ==> s[|s| - |suffix| + k] == suffix[k]
  {
    |suffix| <= |s| && s[|s| - |suffix|..] == suffix
  }

  /** A text ends with a suffix exactly when it is some text followed by that suffix. */
  lemma EndsWithConcat(s: string, suffix: string)
    ensures EndsWith(s, suffix) <==> exists p :: s == p + suffix
  {
    if EndsWith(s, suffix) {
      var p := s[..|s| - |suffix|];
      assert s == p + suffix;
    }
    if exists p :: s == p + suffix {
      var p :| s == p + suffix;
      assert s[|s| - |suffix|..] == suffix;
    }
  }

  /**
   * `sep.join(parts)`: the parts in order, one separator between each two;
   * a single part is returned as it is, and otherwise the text starts with
   * the first part and ends with the last.
   */
  function Join(parts: seq<string>, sep: string): (r: string)
    ensures parts == [] ==> r == []
    ensures |parts| == 1 ==> r == parts[0]
    ensures parts != [] ==> |parts[0]| <= |r| && |parts[|parts| - 1]| <= |r|
    ensures parts != [] ==> r[..|parts[0]|] == parts[0]
    ensures parts != [] ==> r[|r| - |parts[|parts| - 1]|..] == parts[|parts| - 1]
  {
    if parts == [] then []
    else if |parts| == 1 then parts[0]
    else
      var rest := Join(parts[1..], sep);
      var last := parts[|parts| - 1];
      assert parts[1..][|parts[1..]| - 1] == last;
      var r := parts[0] + sep + rest;
      assert r[|r| - |last|..] == rest[|rest| - |last|..];
      r
  }

  /**
   * `sep.join` of two non-empty lists put together is the join of the first,
   * the separator, and the join of the second: `sep` stands between every
   * two consecutive parts. With the single-part case this determines the join.
   */
  lemma {:induction false} JoinAppend(a: seq<string>, b: seq<string>, sep: string)
    requires a != [] && b != []
    ensures Join(a + b, sep) == Join(a, sep) + sep + Join(b, sep)
    decreases |a|
  {
    var ab := a + b;
    assert ab[0] == a[0] && ab[1..] == a[1..] + b;
    JoinUnfold(ab, sep);
    if |a| > 1 {
      JoinAppend(a[1..], b, sep);
      JoinUnfold(a, sep);
      ConcatRegroup(a[0], sep, Join(a[1..], sep), Join(b, sep));
    } else {
      assert ab[1..] == b;
    }
  }

  /** Regrouping the two separators of a three-part text. */
  lemma ConcatRegroup(x: string, sep: string, rest: string, jb: string)
    ensures x + sep + (rest + sep + jb) == (x + sep + rest) + sep + jb
  {
  }

  /** One step of `Join` on two or more parts. */
  lemma JoinUnfold(parts: seq<string>, sep: string)
    requires |parts| > 1
    ensures Join(parts, sep) == parts[0] + sep + Join(parts[1..], sep)
  {
  }

  /** The boundary-free run at the front of `a + b` is the one of `a`, or all of `a` followed by the one of `b`. */
  lemma LineEndConcat(a: string, b: string)
    ensures LineEnd(a) < |a| ==> LineEnd(a + b) == LineEnd(a)
    ensures LineEnd(a) == |a| ==> LineEnd(a + b) == |a| + LineEnd(b)
  {
    assert forall k :: 0 <= k < |a| ==> (a + b)[k] == a[k];
    assert forall k :: 0 <= k < |b| ==> (a + b)[|a| + k] == b[k];
  }

  /** `parts` without its last element when that one is empty. */
  function DropEmptyLast(parts: seq<string>): (r: seq<string>)
    ensures r == parts || (parts != [] && parts[|parts| - 1] == [] && r == parts[..|parts| - 1])
  {
    if parts != [] && parts[|parts| - 1] == [] then parts[..|parts| - 1] else parts
  }

  lemma DropEmptyLastCons(parts: seq<string>)
    requires |parts| > 1
    ensures DropEmptyLast(parts) == [parts[0]] + DropEmptyLast(parts[1..])
  {
    var tail := parts[1..];
    assert tail[|tail| - 1] == parts[|parts| - 1];
    assert parts == [parts[0]] + tail;
    assert parts[..|parts| - 1] == [parts[0]] + tail[..|tail| - 1];
  }

  /**
   * Splitting the "\n"-joined text of lines that hold no boundary gives those
   * lines back, except an empty last one (a trailing "\n" opens no line).
   */
  lemma {:induction false} SplitLinesOfJoin(parts: seq<string>)
    requires forall p :: p in parts ==> NoLineBreak(p)
    ensures SplitLines(Join(parts, "\n")) == DropEmptyLast(parts)
  {
    if |parts| == 1 {
      assert parts[0] in parts;
      assert LineEnd(parts[0]) == |parts[0]|;
    } else if |parts| > 1 {
      var tail := parts[1..];
      assert parts[0] in parts;
      assert forall q :: q in tail ==> q in parts;
      SplitLinesOfJoin(tail);
      SplitLinesNewline(parts[0], Join(tail, "\n"));
      DropEmptyLastCons(parts);
    }
  }

  /** A boundary-free line followed by "\n" is the first line of the text. */
  lemma SplitLinesNewline(p: string, rest: string)
    requires NoLineBreak(p)
    ensures SplitLines(p + "\n" + rest) == [p] + SplitLines(rest)
  {
    var s := p + "\n" + rest;
    assert s[..|p| + 1] == p + "\n";
    assert s[|p| + 1..] == rest;
    SplitLinesHead(s, p, "\n", false);
  }

  // ---------------------------------------------------------------------------
  // What splitlines means: the text is its lines, each ended by one boundary
  // ---------------------------------------------------------------------------

  /** One line boundary as `splitlines` consumes it: a single boundary character, or "\r\n". */
  predicate IsBoundary(b: string) {
    (|b| == 1 && IsLineBreak(b[0])) || b == "\r\n"
  }

  /**
   * `s` starts with the line `l` ended by the boundary `b`: the line holds no
   * boundary, the boundary is a single boundary character or "\r\n" (a "\r"
   * is never followed by a "\n" it leaves behind), and only a non-empty line
   * that is the `last` may end without a boundary.
   */
  ghost predicate StartsWithLine(s: string, l: string, b: string, last: bool)
  {
    NoLineBreak(l) && |l| + |b| <= |s| && s[..|l| + |b|] == l + b
    && if b == [] then l != [] && last
       else IsBoundary(b) && (b == "\r" ==> |s| == |l| + 1 || s[|l| + 1] != '\n')
  }

  /** `s` reads as `lines`, each ended by its boundary in `seps`. */
  ghost predicate IsLineSplit(s: string, lines: seq<string>, seps: seq<string>)
    decreases |lines|
  {
    |lines| == |seps|
    && if lines == [] then s == []
       else
         StartsWithLine(s, lines[0], seps[0], |lines| == 1)
         && IsLineSplit(s[|lines[0]| + |seps[0]|..], lines[1..], seps[1..])
  }

  /** A line cut off the front of the text is the first line `splitlines` returns. */
  lemma SplitLinesHead(s: string, l: string, b: string, last: bool)
    requires StartsWithLine(s, l, b, last)
    requires b == [] ==> |s| == |l|
    ensures SplitLines(s) == [l] + SplitLines(s[|l| + |b|..])
  {
    var n := |l| + |b|;
    assert s[..n] == l + b;
    forall k | 0 <= k < |l| ensures s[k] == l[k] {
      assert s[k] == s[..n][k];
    }
    if b == [] {
      assert s == l;
      assert s[|s|..] == [];
    } else {
      assert s[|l|] == b[0] by { assert s[|l|] == s[..n][|l|]; }
      assert IsLineBreak(s[|l|]);
      if b == "\r\n" {
        assert s[|l| + 1] == '\n' by { assert s[|l| + 1] == s[..n][|l| + 1]; }
      }
      assert s[..|l|] == l;
      SplitLinesUnfold(s, |l|, n);
    }
  }

  /** The first line of `s` and the boundary after it, as `SplitLines` cuts them, start `s`. */
  lemma FirstLineStarts(s: string, i: nat, next: nat)
    requires s != [] && i == LineEnd(s)
    requires next == if i == |s| then i else if s[i] == '\r' && i + 1 < |s| && s[i + 1] == '\n' then i + 2 else i + 1
    ensures StartsWithLine(s, s[..i], s[i..next], next == |s|)
  {
    var l, b := s[..i], s[i..next];
    assert s[..|l| + |b|] == l + b;
    assert forall k :: 0 <= k < |l| ==> l[k] == s[k];
    if next == i + 2 {
      assert b == "\r\n";
    } else if next == i + 1 {
      assert b == [s[i]];
    }
  }

  /** Putting a line and its boundary in front of a reading of the rest gives a reading of the whole. */
  lemma LineSplitCons(s: string, l: string, b: string, lines: seq<string>, seps: seq<string>)
    requires StartsWithLine(s, l, b, lines == [])
    requires IsLineSplit(s[|l| + |b|..], lines, seps)
    ensures IsLineSplit(s, [l] + lines, [b] + seps)
  {
    assert ([l] + lines)[1..] == lines && ([b] + seps)[1..] == seps;
  }

  /** The lines `splitlines` returns, with suitable boundaries, spell out the text. */
  lemma {:induction false} SplitLinesIsLineSplit(s: string) returns (seps: seq<string>)
    ensures IsLineSplit(s, SplitLines(s), seps)
    decreases |s|
  {
    if s == [] {
      seps := [];
    } else {
      var i := LineEnd(s);
      var next := if i == |s| then i else if s[i] == '\r' && i + 1 < |s| && s[i + 1] == '\n' then i + 2 else i + 1;
      var l, b := s[..i], s[i..next];
      assert |l| + |b| == next;
      FirstLineStarts(s, i, next);
      SplitLinesHead(s, l, b, next == |s|);
      var tail := SplitLines(s[next..]);
      assert tail == [] <==> next == |s|;
      var rest := SplitLinesIsLineSplit(s[next..]);
      LineSplitCons(s, l, b, tail, rest);
      assert SplitLines(s) == [l] + tail;
      seps := [b] + rest;
    }
  }

  /** Any such reading of the text is the one `splitlines` gives: the lines are determined by the text. */
  lemma {:induction false} LineSplitIsSplitLines(s: string, lines: seq<string>, seps: seq<string>)
    requires IsLineSplit(s, lines, seps)
    ensures lines == SplitLines(s)
    decreases |lines|
  {
    if lines != [] {
      var l, b := lines[0], seps[0];
      var rest := s[|l| + |b|..];
      LineSplitIsSplitLines(rest, lines[1..], seps[1..]);
      if b == [] {
        assert lines[1..] == [] && rest == [];
      }
      SplitLinesHead(s, l, b, |lines| == 1);
    }
  }

  /**
   * What `splitlines` means: its lines are exactly the lines that, each
   * ended by one boundary (only the last one may lack it), spell out the text.
   */
  lemma SplitLinesCharacterised(s: string, lines: seq<string>)
    ensures lines == SplitLines(s) <==> exists seps :: IsLineSplit(s, lines, seps)
  {
    if lines == SplitLines(s) {
      var seps := SplitLinesIsLineSplit(s);
      assert IsLineSplit(s, lines, seps);
      assert exists seps' :: IsLineSplit(s, lines, seps');
    } else {
      forall seps ensures !IsLineSplit(s, lines, seps) {
        if IsLineSplit(s, lines, seps) {
          LineSplitIsSplitLines(s, lines, seps);
        }
      }
    }
  }

  /** Joining boundary-free parts with a boundary-free separator gives a boundary-free text. */
  lemma {:induction false} JoinNoLineBreak(parts: seq<string>, sep: string)
    requires NoLineBreak(sep)
    requires forall p :: p in parts ==> NoLineBreak(p)
    ensures NoLineBreak(Join(parts, sep))
  {
    if |parts| > 1 {
      assert parts[0] in parts;
      assert forall p :: p in parts[1..] ==> p in parts;
      JoinNoLineBreak(parts[1..], sep);
      var r := Join(parts[1..], sep);
      var s := parts[0] + sep + r;
      forall k | 0 <= k < |s| ensures !IsLineBreak(s[k]) {
        if k < |parts[0]| { assert s[k] == parts[0][k]; }
        else if k < |parts[0]| + |sep| { assert s[k] == sep[k - |parts[0]|]; }
        else { assert s[k] == r[k - |parts[0]| - |sep|]; }
      }
    } else if |parts| == 1 {
      assert parts[0] in parts;
    }
  }

  /** Stripping a line keeps it free of line boundaries. */
  lemma StripNoLineBreak(l: string)
    requires NoLineBreak(l)
    ensures NoLineBreak(Strip(l))
  {
    StripKeepsSlice(l);
    var i, j :| 0 <= i <= j <= |l| && Strip(l) == l[i..j];
    assert forall k :: 0 <= k < j - i ==> l[i..j][k] == l[i + k];
  }

  // ---------------------------------------------------------------------------
  // Cleaning: [l.strip() for l in lines if l.strip()]
  // ---------------------------------------------------------------------------

  /** The stripped, non-blank lines, as a set. */
  ghost function CleanSet(lines: seq<string>): (clean: set<string>)
  {
    set l | l in lines && Strip(l) != [] :: Strip(l)
  }

  function Elems<T>(s: seq<T>): (elems: set<T>)
  {
    set x | x in s
  }

  /** The list comprehension `[line.strip() for line in lines if line.strip()]`. */
  function Cleaned(lines: seq<string>): (r: seq<string>)
    ensures forall e :: e in r ==> e != [] && Strip(e) == e
    ensures Elems(r) == CleanSet(lines)
    ensures |r| <= |lines|
  {
    if lines == [] then []
    else
      var rest := Cleaned(lines[1..]);
      CleanedCons(lines, rest);
      if Strip(lines[0]) != [] then [Strip(lines[0])] + rest else rest
  }

  /** One step of `Cleaned`: the first line, stripped, joins the cleaned rest unless it is blank. */
  lemma CleanedCons(lines: seq<string>, rest: seq<string>)
    requires lines != []
    requires forall e :: e in rest ==> e != [] && Strip(e) == e
    requires Elems(rest) == CleanSet(lines[1..])
    ensures var r := if Strip(lines[0]) != [] then [Strip(lines[0])] + rest else rest;
            (forall e :: e in r ==> e != [] && Strip(e) == e) && Elems(r) == CleanSet(lines)
  {
    var s := Strip(lines[0]);
    StripIdempotent(lines[0]);
    CleanSetCons(lines);
    if s != [] {
      ElemsCons(s, rest);
    }
  }

  lemma ElemsCons<T>(x: T, s: seq<T>)
    ensures (forall e :: e in [x] + s <==> e == x || e in s) && Elems([x] + s) == {x} + Elems(s)
  {
    assert forall e :: e in [x] + s <==> e == x || e in s;
  }

  lemma CleanSetCons(lines: seq<string>)
    requires lines != []
    ensures CleanSet(lines) == (if Strip(lines[0]) != [] then {Strip(lines[0])} else {}) + CleanSet(lines[1..])
  {
    assert lines == [lines[0]] + lines[1..];
    CleanSetAppend([lines[0]], lines[1..]);
    assert CleanSet([lines[0]]) == if Strip(lines[0]) != [] then {Strip(lines[0])} else {};
  }

  lemma CleanSetAppend(a: seq<string>, b: seq<string>)
    ensures CleanSet(a + b) == CleanSet(a) + CleanSet(b)
  {
    forall x | x in CleanSet(a + b) ensures x in CleanSet(a) + CleanSet(b) {
      var l :| l in a + b && Strip(l) != [] && Strip(l) == x;
      if l in a { assert x in CleanSet(a); } else { assert x in CleanSet(b); }
    }
    forall x | x in CleanSet(a) + CleanSet(b) ensures x in CleanSet(a + b) {
      if x in CleanSet(a) {
        var l :| l in a && Strip(l) != [] && Strip(l) == x;
        assert l in a + b;
      } else {
        var l :| l in b && Strip(l) != [] && Strip(l) == x;
        assert l in a + b;
      }
    }
  }

  /**
   * The pieces of `s` between single boundary characters, without Python's
   * "\r\n" merge and end-of-text rule; they differ from `SplitLines(s)` only
   * by blank lines.
   */
  ghost function Pieces(s: string): (ps: seq<string>)
    decreases |s|
  {
    var i := LineEnd(s);
    if i == |s| then [s] else [s[..i]] + Pieces(s[i + 1..])
  }

  lemma {:induction false} PiecesAppend(a: string, c: char, b: string)
    requires IsLineBreak(c)
    ensures Pieces(a + [c] + b) == Pieces(a) + Pieces(b)
    decreases |a|
  {
    var s := a + [c] + b;
    assert s == a + ([c] + b);
    LineEndConcat(a, [c] + b);
    var i := LineEnd(a);
    if i == |a| {
      assert LineEnd([c] + b) == 0;
      assert s[..i] == a && s[i + 1..] == b;
    } else {
      assert s[..i] == a[..i];
      assert s[i + 1..] == a[i + 1..] + [c] + b;
      PiecesAppend(a[i + 1..], c, b);
    }
  }

  /** Past a "\r" that is followed by "\n", the pieces start with one blank piece. */
  lemma PiecesAfterCarriageReturn(t: string)
    requires t != [] && t[0] == '\n'
    ensures CleanSet(Pieces(t)) == CleanSet(Pieces(t[1..]))
  {
    assert LineEnd(t) == 0;
    assert t[..0] == [];
    assert Pieces(t) == [[]] + Pieces(t[1..]);
    CleanSetAppend([[]], Pieces(t[1..]));
    assert Strip([]) == [];
    assert CleanSet([[]]) == {};
  }

  /** Putting the same line in front of two lists with the same cleaned lines keeps them equal. */
  lemma CleanSetConsEqual(l: string, a: seq<string>, b: seq<string>)
    requires CleanSet(a) == CleanSet(b)
    ensures CleanSet([l] + a) == CleanSet([l] + b)
  {
    CleanSetAppend([l], a);
    CleanSetAppend([l], b);
  }

  /** Skipping the "\n" of a "\r\n" boundary changes no cleaned piece. */
  lemma PiecesAfterBoundary(s: string, i: nat, next: nat)
    requires i < |s| && (next == i + 1 || (next == i + 2 && i + 1 < |s| && s[i + 1] == '\n'))
    ensures CleanSet(Pieces(s[i + 1..])) == CleanSet(Pieces(s[next..]))
  {
    if next == i + 2 {
      assert s[i + 1..][1..] == s[next..];
      PiecesAfterCarriageReturn(s[i + 1..]);
    }
  }

  /** One line of `SplitLines`: the same line heads the pieces, and the rest agree once cleaned. */
  lemma CleanSplitLinesStep(s: string, i: nat, next: nat)
    requires i == LineEnd(s) && i < |s|
    requires next == if s[i] == '\r' && i + 1 < |s| && s[i + 1] == '\n' then i + 2 else i + 1
    requires CleanSet(SplitLines(s[next..])) == CleanSet(Pieces(s[next..]))
    ensures CleanSet(SplitLines(s)) == CleanSet(Pieces(s))
  {
    SplitLinesUnfold(s, i, next);
    PiecesUnfold(s, i);
    PiecesAfterBoundary(s, i, next);
    CleanSetConsEqual(s[..i], SplitLines(s[next..]), Pieces(s[i + 1..]));
  }

  lemma SplitLinesUnfold(s: string, i: nat, next: nat)
    requires i == LineEnd(s) && i < |s|
    requires next == if s[i] == '\r' && i + 1 < |s| && s[i + 1] == '\n' then i + 2 else i + 1
    ensures SplitLines(s) == [s[..i]] + SplitLines(s[next..])
  {
  }

  lemma PiecesUnfold(s: string, i: nat)
    requires i == LineEnd(s) && i < |s|
    ensures Pieces(s) == [s[..i]] + Pieces(s[i + 1..])
  {
  }

  lemma {:induction false} CleanSplitLinesIsCleanPieces(s: string)
    ensures CleanSet(SplitLines(s)) == CleanSet(Pieces(s))
    decreases |s|
  {
    var i := LineEnd(s);
    if s == [] {
      assert Pieces(s) == [[]];
      assert Strip([]) == [];
      assert CleanSet([[]]) == {};
    } else if i < |s| {
      var next := if s[i] == '\r' && i + 1 < |s| && s[i + 1] == '\n' then i + 2 else i + 1;
      CleanSplitLinesIsCleanPieces(s[next..]);
      CleanSplitLinesStep(s, i, next);
    }
  }

  /** The cleaned lines of each of `parts`, united. */
  ghost function CleanOfEach(parts: seq<string>): (clean: set<string>)
  {
    if parts == [] then {} else CleanSet(SplitLines(parts[0])) + CleanOfEach(parts[1..])
  }

  lemma {:induction false} CleanOfEachMembers(parts: seq<string>, x: string)
    ensures x in CleanOfEach(parts) <==> exists p :: p in parts && x in CleanSet(SplitLines(p))
  {
    if parts != [] {
      CleanOfEachMembers(parts[1..], x);
      if x in CleanOfEach(parts[1..]) {
        var p :| p in parts[1..] && x in CleanSet(SplitLines(p));
        assert p in parts;
      }
      if exists p :: p in parts && x in CleanSet(SplitLines(p)) {
        var p :| p in parts && x in CleanSet(SplitLines(p));
        if p != parts[0] {
          assert p in parts[1..];
        }
      }
    }
  }

  lemma {:induction false} CleanOfJoin(parts: seq<string>)
    ensures CleanSet(SplitLines(Join(parts, "\n"))) == CleanOfEach(parts)
  {
    if |parts| == 1 {
      assert CleanOfEach(parts[1..]) == {};
    } else if |parts| > 1 {
      var p, rest := parts[0], Join(parts[1..], "\n");
      PiecesAppend(p, '\n', rest);
      assert p + "\n" + rest == p + ['\n'] + rest;
      CleanSplitLinesIsCleanPieces(p + "\n" + rest);
      CleanSplitLinesIsCleanPieces(p);
      CleanSplitLinesIsCleanPieces(rest);
      CleanSetAppend(Pieces(p), Pieces(rest));
      CleanOfJoin(parts[1..]);
    }
  }

  /**
   * The cleaned lines of "\n"-joined texts are exactly the cleaned lines of
   * the texts: joining loses no line and introduces none.
   */
  lemma CleanLinesOfJoin(parts: seq<string>)
    ensures forall x :: x in CleanSet(SplitLines(Join(parts, "\n")))
              <==> exists p :: p in parts && x in CleanSet(SplitLines(p))
  {
    CleanOfJoin(parts);
    forall x ensures x in CleanOfEach(parts) <==> exists p :: p in parts && x in CleanSet(SplitLines(p)) {
      CleanOfEachMembers(parts, x);
    }
  }
}
