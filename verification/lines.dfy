/**
 * The line index of a lexer's content (SNBTLexer.createLineOffsetsTable) and the 1-based
 * line and column queries built on it (getLineFromOffset, getCodePointColumnFromOffset).
 */
module Lines {
  import opened Text

  predicate StrictlyIncreasing(s: seq<int>)
  {
    forall a, b :: 0 <= a < b < |s| ==> s[a] < s[b]
  }

  /** The line starts recorded after looking at the first `n` code units: offset 0, then
      `i + 1` for every '\n' at `i`, except a '\n' that is the last code unit. */
  function Starts(c: seq<CodeUnit>, n: nat): seq<int>
    requires n <= |c|
  {
    if n == 0 then [0]
    else Starts(c, n - 1) + (if c[n - 1] == NL && n < |c| then [n] else [])
  }

  /** lineOffsets: empty for empty content, otherwise the starts of all lines. */
  function LineStarts(c: seq<CodeUnit>): seq<int>
  {
    if c == [] then [] else Starts(c, |c|)
  }

  /** needToCalculateColumns: the (0-based) lines holding a tab or a high surrogate. */
  function FlaggedLines(c: seq<CodeUnit>): set<int>
  {
    set i | 0 <= i < |c| && (c[i] == TAB || IsHighSurrogate(c[i])) :: CountNL(c[..i])
  }

  lemma StartsShape(c: seq<CodeUnit>, n: nat)
    requires n <= |c|
    ensures var s := Starts(c, n);
      |s| >= 1 && s[0] == 0 && StrictlyIncreasing(s) &&
      (forall k :: 0 <= k < |s| ==> 0 <= s[k] <= n && s[k] < |c| + (if c == [] then 1 else 0)) &&
      (forall k :: 1 <= k < |s| ==> c[s[k] - 1] == NL && s[k] < |c|) &&
      (forall j :: 0 <= j < n && j + 1 < |c| && c[j] == NL ==> j + 1 in s) &&
      |s| == 1 + (if n == |c| && n > 0 then CountNL(c[..n - 1]) else CountNL(c[..n]))
  {
    StartsBounds(c, n);
    StartsCover(c, n);
    StartsCount(c, n);
  }

  /** The entries start at 0, increase, stay within the units looked at, and each later one follows a '\n'. */
  lemma {:induction false} StartsBounds(c: seq<CodeUnit>, n: nat)
    requires n <= |c|
    ensures var s := Starts(c, n);
      |s| >= 1 && s[0] == 0 && StrictlyIncreasing(s) &&
      (forall k :: 0 <= k < |s| ==> 0 <= s[k] <= n && s[k] < |c| + (if c == [] then 1 else 0)) &&
      (forall k :: 1 <= k < |s| ==> c[s[k] - 1] == NL && s[k] < |c|)
    decreases n
  {
    if n > 0 {
      StartsBounds(c, n - 1);
    }
  }

  /** Every '\n' looked at, except a final one, contributes the offset after it. */
  lemma {:induction false} StartsCover(c: seq<CodeUnit>, n: nat)
    requires n <= |c|
    ensures forall j :: 0 <= j < n && j + 1 < |c| && c[j] == NL ==> j + 1 in Starts(c, n)
    decreases n
  {
    if n > 0 {
      StartsCover(c, n - 1);
    }
  }

  /** One entry, plus one per '\n' looked at (a final '\n' not counted). */
  lemma {:induction false} StartsCount(c: seq<CodeUnit>, n: nat)
    requires n <= |c|
    ensures |Starts(c, n)| == 1 + (if n == |c| && n > 0 then CountNL(c[..n - 1]) else CountNL(c[..n]))
    decreases n
  {
    if n > 0 {
      StartsCount(c, n - 1);
      assert c[..n][..n - 1] == c[..n - 1];
      if n == |c| {
        assert c[..n] == c;
      }
    }
  }

  /** Later steps only add starts beyond the offsets already looked at. */
  lemma {:induction false} StartsExtend(c: seq<CodeUnit>, i: nat, n: nat)
    requires i <= n <= |c|
    ensures Starts(c, i) <= Starts(c, n)
    ensures forall k :: |Starts(c, i)| <= k < |Starts(c, n)| ==> Starts(c, n)[k] > i
    decreases n - i
  {
    if i < n {
      StartsExtend(c, i, n - 1);
    }
  }

  /** Later steps never remove a start. */
  lemma {:induction false} StartsGrow(c: seq<CodeUnit>, i: nat, n: nat)
    requires i <= n <= |c|
    ensures |Starts(c, i)| <= |Starts(c, n)|
    decreases n - i
  {
    if i < n {
      StartsGrow(c, i, n - 1);
    }
  }

  /** The line table: it starts at 0, is strictly increasing, every later entry follows a
      '\n' (never a final one) and every such '\n' contributes an entry; it has one entry per
      '\n' plus one when the content does not end in '\n'. */
  lemma LineStartsTable(c: seq<CodeUnit>)
    requires c != []
    ensures var s := LineStarts(c);
      |s| >= 1 && s[0] == 0 && StrictlyIncreasing(s) &&
      (forall k :: 0 <= k < |s| ==> 0 <= s[k] < |c|) &&
      (forall k :: 1 <= k < |s| ==> c[s[k] - 1] == NL) &&
      (forall j :: 0 <= j < |c| - 1 && c[j] == NL ==> j + 1 in s) &&
      |s| == CountNL(c) + (if c[|c| - 1] != NL then 1 else 0)
  {
    StartsShape(c, |c|);
    assert c == c[..|c| - 1] + [c[|c| - 1]];
    CountNLAppend(c[..|c| - 1], [c[|c| - 1]]);
    assert CountNL([c[|c| - 1]]) == (if c[|c| - 1] == NL then 1 else 0) by {
      assert [c[|c| - 1]][..0] == [];
    }
  }

  lemma LineStartsIncreasing(c: seq<CodeUnit>)
    ensures StrictlyIncreasing(LineStarts(c))
  {
    if c != [] {
      StartsShape(c, |c|);
    }
  }

  /** The largest index whose entry is at most `pos`, or -1 when there is none. */
  function Floor(s: seq<int>, pos: int): (r: int)
    ensures -1 <= r < |s|
    ensures r >= 0 ==> s[r] <= pos
    ensures forall j :: r < j < |s| ==> s[j] > pos
  {
    if s == [] then -1
    else if s[|s| - 1] <= pos then |s| - 1
    else Floor(s[..|s| - 1], pos)
  }

  /** The 0-based line of an offset inside the content is the number of '\n' before it. */
  lemma LineOfOffset(c: seq<CodeUnit>, pos: int)
    requires 0 <= pos < |c|
    ensures Floor(LineStarts(c), pos) == CountNL(c[..pos])
  {
    var s := LineStarts(c);
    StartsExtend(c, pos, |c|);
    StartsShape(c, pos);
    var p := Starts(c, pos);
    var r := Floor(s, pos);
    assert s[|p| - 1] == p[|p| - 1] <= pos;
    assert r == |p| - 1;
  }

  /** Arrays.binarySearch over a strictly increasing table: the index of `key`, or
      -(insertion point) - 1 when absent. */
  function BinarySearch(s: seq<int>, key: int): (r: int)
    requires StrictlyIncreasing(s)
    ensures r >= 0 ==> r < |s| && s[r] == key
    ensures r < 0 ==> key !in s && -(r + 1) <= |s|
    ensures r < 0 ==> forall j :: 0 <= j < |s| ==> (s[j] < key <==> j < -(r + 1))
  {
    var f := Floor(s, key);
    if f >= 0 && s[f] == key then f else -(f + 1) - 1
  }

  /** getLineFromOffset as written; None where the source reads before the start of the
      content (an offset at or past the end of empty content). */
  function LineFromOffset(c: seq<CodeUnit>, startingLine: int, pos: int): Option<int>
  {
    var s := LineStarts(c);
    if pos >= |c| then
      if |c| == 0 then None
      else if c[|c| - 1] == NL then Some(startingLine + |s|)
      else Some(startingLine + |s| - 1)
    else
      LineStartsIncreasing(c);
      var b := BinarySearch(s, pos);
      if b >= 0 then Some(Max(1, startingLine + b))
      else Some(Max(1, startingLine - (b + 2)))
  }

  function Max(a: int, b: int): int { if a >= b then a else b }

  /** Inside the content the line is startingLine plus the index of the last line start at or
      before `pos` (never below 1), so it never decreases as `pos` grows. */
  lemma LineFromOffsetIsFloor(c: seq<CodeUnit>, startingLine: int, pos: int)
    requires pos < |c|
    ensures LineFromOffset(c, startingLine, pos) == Some(Max(1, startingLine + Floor(LineStarts(c), pos)))
  {
    LineStartsIncreasing(c);
    var s := LineStarts(c);
    var b := BinarySearch(s, pos);
    var f := Floor(s, pos);
    if b < 0 {
      assert -(b + 1) == f + 1;
    }
  }

  lemma {:induction false} FloorMonotone(s: seq<int>, p: int, q: int)
    requires p <= q
    ensures Floor(s, p) <= Floor(s, q)
  {
    var fp := Floor(s, p);
    if fp >= 0 {
      assert s[fp] <= q;
    }
  }

  lemma LineFromOffsetMonotone(c: seq<CodeUnit>, startingLine: int, p: int, q: int)
    requires p <= q < |c|
    ensures LineFromOffset(c, startingLine, p).Some? && LineFromOffset(c, startingLine, q).Some?
    ensures LineFromOffset(c, startingLine, p).value <= LineFromOffset(c, startingLine, q).value
  {
    LineFromOffsetIsFloor(c, startingLine, p);
    LineFromOffsetIsFloor(c, startingLine, q);
    FloorMonotone(LineStarts(c), p, q);
  }

  /** Java's remainder, which truncates toward zero. */
  function JavaRem(a: int, b: int): (r: int)
    requires b > 0
    ensures -b < r < b
    ensures a >= 0 ==> r == a % b
  {
    if a >= 0 then a % b else -((-a) % b)
  }

  /** The column walk from offset `i` up to (not including) `end`: a tab jumps to the next
      tab stop, a high surrogate and the unit after it count as one column, anything else
      counts one. */
  function Walk(c: seq<CodeUnit>, i: int, end: int, col: int, tabSize: int): int
    requires 0 <= i && end <= |c| && tabSize >= 1
    decreases end - i
  {
    if i >= end then col
    else if c[i] == TAB then Walk(c, i + 1, end, col + tabSize - JavaRem(col - 1, tabSize), tabSize)
    else if IsHighSurrogate(c[i]) then Walk(c, i + 2, end, col + 1, tabSize)
    else Walk(c, i + 1, end, col + 1, tabSize)
  }

  /** The loop of getCodePointColumnFromOffset over one flagged line, from `from` up to `end`. */
  method WalkColumns(c: seq<CodeUnit>, from: int, end: int, start: int, tabSize: int) returns (col: int)
    requires 0 <= from && end <= |c| && tabSize >= 1
    ensures col == Walk(c, from, end, start, tabSize)
  {
    col := start;
    var i := from;
    while i < end
      invariant from <= i
      invariant Walk(c, i, end, col, tabSize) == Walk(c, from, end, start, tabSize)
      decreases end - i
    {
      var ch := c[i];
      if ch == TAB {
        col := col + tabSize - JavaRem(col - 1, tabSize);
      } else if IsHighSurrogate(ch) {
        col := col + 1;
        i := i + 1;
      } else {
        col := col + 1;
      }
      i := i + 1;
    }
  }

  /** The column computation once the 0-based line index `line` has been chosen. */
  function ColumnOnLine(c: seq<CodeUnit>, startingColumn: int, tabSize: int, pos: int, line: int): Option<int>
    requires 0 < pos < |c| && tabSize >= 1
  {
    var s := LineStarts(c);
    if !(0 <= line < |s|) then None
    else
      var lineStart := s[line];
      var adjustment := if line > 0 then 1 else startingColumn;
      if line !in FlaggedLines(c) then Some(pos - lineStart + adjustment)
      else
        var p := if IsLowSurrogate(c[pos]) then pos - 1 else pos;
        if lineStart < 0 then None else Some(Walk(c, lineStart, p, adjustment, tabSize))
  }

  /** getCodePointColumnFromOffset as written: the line index is taken as the clamped line
      number minus startingLine. None where the source indexes outside the line table. */
  function ColumnAsWritten(c: seq<CodeUnit>, startingLine: int, startingColumn: int, tabSize: int, pos: int): Option<int>
    requires 0 <= pos && tabSize >= 1
  {
    if pos >= |c| then Some(1)
    else if pos == 0 then Some(startingColumn)
    else ColumnOnLine(c, startingColumn, tabSize, pos, LineFromOffset(c, startingLine, pos).value - startingLine)
  }

  /** The column with the line index taken directly from the line table, which is what the
      computation intends; it differs from ColumnAsWritten only when startingLine + index < 1. */
  function Column(c: seq<CodeUnit>, startingColumn: int, tabSize: int, pos: int): (r: int)
    requires 0 <= pos && tabSize >= 1
  {
    if pos >= |c| then 1
    else if pos == 0 then startingColumn
    else
      LineStartsTable(c);
      var line := Floor(LineStarts(c), pos);
      var r := ColumnOnLine(c, startingColumn, tabSize, pos, line);
      assert r.Some?;
      r.value
  }

  /** The flagged lines among the first `n` code units. */
  function FlaggedUpTo(c: seq<CodeUnit>, n: nat): set<int>
    requires n <= |c|
  {
    set i | 0 <= i < n && (c[i] == TAB || IsHighSurrogate(c[i])) :: CountNL(c[..i])
  }

  /** createLineOffsetsTable: one pass counting lines and flagging those that hold a tab or a
      high surrogate, then a second pass filling the table of line starts. */
  method CreateLineOffsetsTable(c: seq<CodeUnit>) returns (lineOffsets: array<int>, flags: set<int>)
    ensures lineOffsets[..] == LineStarts(c) && fresh(lineOffsets)
    ensures flags == FlaggedLines(c)
  {
    if |c| == 0 {
      flags := {};
      lineOffsets := new int[0];
      return;
    }
    var lineCount;
    lineCount, flags := CountLines(c);
    lineOffsets := new int[lineCount];
    FillLineStarts(c, lineOffsets);
  }

  /** The second pass of createLineOffsetsTable: entry 0 is 0 and every '\n' but a final one
      records the offset after it. */
  method FillLineStarts(c: seq<CodeUnit>, lineOffsets: array<int>)
    requires c != [] && lineOffsets.Length == |LineStarts(c)|
    modifies lineOffsets
    ensures lineOffsets[..] == LineStarts(c)
  {
    var length := |c|;
    StartsGrow(c, 0, length);
    lineOffsets[0] := 0;
    var index := 1;
    var i := 0;
    while i < length
      invariant 0 <= i <= length
      invariant index == |Starts(c, i)| <= lineOffsets.Length
      invariant lineOffsets[..index] == Starts(c, i)
    {
      if c[i] == NL && i + 1 == length {
        break;
      }
      StartsGrow(c, i + 1, length);
      if c[i] == NL {
        lineOffsets[index] := i + 1;
        index := index + 1;
      }
      i := i + 1;
    }
    assert Starts(c, length) == Starts(c, i) by {
      if i < length {
        assert Starts(c, i + 1) == Starts(c, i);
      }
    }
    assert lineOffsets[..] == lineOffsets[..index];
  }

  /** The first pass of createLineOffsetsTable: the number of lines and the flagged lines. */
  method CountLines(c: seq<CodeUnit>) returns (lineCount: int, flags: set<int>)
    requires c != []
    ensures lineCount == |LineStarts(c)|
    ensures flags == FlaggedLines(c)
  {
    flags := {};
    lineCount := 0;
    var length := |c|;
    var i := 0;
    while i < length
      invariant 0 <= i <= length
      invariant lineCount == CountNL(c[..i])
      invariant flags == FlaggedUpTo(c, i)
    {
      var ch := c[i];
      if ch == TAB || IsHighSurrogate(ch) {
        flags := flags + {lineCount};
      }
      FlaggedUpToStep(c, i);
      if ch == NL {
        lineCount := lineCount + 1;
      }
      CountNLStep(c, i);
      i := i + 1;
    }
    assert c[..length] == c;
    assert FlaggedUpTo(c, length) == FlaggedLines(c);
    if c[length - 1] != NL {
      lineCount := lineCount + 1;
    }
    LineStartsTable(c);
  }

  lemma CountNLStep(c: seq<CodeUnit>, i: nat)
    requires i < |c|
    ensures CountNL(c[..i + 1]) == CountNL(c[..i]) + (if c[i] == NL then 1 else 0)
  {
    assert c[..i + 1][..i] == c[..i];
  }

  lemma FlaggedUpToStep(c: seq<CodeUnit>, i: nat)
    requires i < |c|
    ensures FlaggedUpTo(c, i + 1) ==
      FlaggedUpTo(c, i) + (if c[i] == TAB || IsHighSurrogate(c[i]) then {CountNL(c[..i])} else {})
  {
  }

  /** needToCalculateColumns flags exactly the lines that contain a tab or a high surrogate. */
  lemma FlaggedLinesExact(c: seq<CodeUnit>, k: int)
    ensures k in FlaggedLines(c) <==>
      exists i :: 0 <= i < |c| && Floor(LineStarts(c), i) == k && (c[i] == TAB || IsHighSurrogate(c[i]))
  {
    if k in FlaggedLines(c) {
      var i :| 0 <= i < |c| && (c[i] == TAB || IsHighSurrogate(c[i])) && CountNL(c[..i]) == k;
      LineOfOffset(c, i);
    }
    if exists i :: 0 <= i < |c| && Floor(LineStarts(c), i) == k && (c[i] == TAB || IsHighSurrogate(c[i])) {
      var i :| 0 <= i < |c| && Floor(LineStarts(c), i) == k && (c[i] == TAB || IsHighSurrogate(c[i]));
      LineOfOffset(c, i);
    }
  }

  /** Columns never go backwards along the walk: every unit adds at least one column. */
  lemma {:induction false} WalkAtLeast(c: seq<CodeUnit>, i: int, end: int, col: int, tabSize: int)
    requires 0 <= i && end <= |c| && tabSize >= 1
    ensures Walk(c, i, end, col, tabSize) >= col
    ensures i < end ==> Walk(c, i, end, col, tabSize) > col
    decreases end - i
  {
    if i < end {
      if c[i] == TAB {
        WalkAtLeast(c, i + 1, end, col + tabSize - JavaRem(col - 1, tabSize), tabSize);
      } else if IsHighSurrogate(c[i]) {
        WalkAtLeast(c, i + 2, end, col + 1, tabSize);
      } else {
        WalkAtLeast(c, i + 1, end, col + 1, tabSize);
      }
    }
  }

  /** Without tabs or high surrogates the walk counts one column per code unit, so the
      shortcut taken for unflagged lines gives the same answer as the walk. */
  lemma {:induction false} WalkLinear(c: seq<CodeUnit>, i: int, end: int, col: int, tabSize: int)
    requires 0 <= i <= end <= |c| && tabSize >= 1
    requires forall j :: i <= j < end ==> c[j] != TAB && !IsHighSurrogate(c[j])
    ensures Walk(c, i, end, col, tabSize) == col + (end - i)
    decreases end - i
  {
    if i < end {
      WalkLinear(c, i + 1, end, col + 1, tabSize);
    }
  }

  /** A tab moves a column of at least 1 to the next tab stop: the column after it is one
      past the next multiple of the tab size, further right by at most the tab size. */
  lemma TabStop(col: int, tabSize: int)
    requires col >= 1 && tabSize >= 1
    ensures var next := col + tabSize - JavaRem(col - 1, tabSize);
      next - 1 == ((col - 1) / tabSize + 1) * tabSize && col < next <= col + tabSize
  {
    var q := (col - 1) / tabSize;
    assert col - 1 == q * tabSize + (col - 1) % tabSize;
    assert (q + 1) * tabSize == q * tabSize + tabSize;
  }

  /** The number of high surrogates in `c[i..end]`. */
  function HighCount(c: seq<CodeUnit>, i: int, end: int): nat
    requires 0 <= i && end <= |c|
    decreases end - i
  {
    if i >= end then 0 else (if IsHighSurrogate(c[i]) then 1 else 0) + HighCount(c, i + 1, end)
  }

  /** On a tab-free stretch whose high surrogates all start a pair, the walk counts one column
      per code point: the code units less one for each surrogate pair. */
  lemma {:induction false} WalkCountsCodePoints(c: seq<CodeUnit>, i: int, end: int, col: int, tabSize: int)
    requires 0 <= i <= end <= |c| && tabSize >= 1
    requires forall j :: i <= j < end ==> c[j] != TAB
    requires forall j :: i <= j < end && IsHighSurrogate(c[j]) ==> j + 1 < end && IsLowSurrogate(c[j + 1])
    ensures Walk(c, i, end, col, tabSize) == col + (end - i) - HighCount(c, i, end)
    decreases end - i
  {
    if i < end {
      if IsHighSurrogate(c[i]) {
        assert HighCount(c, i + 1, end) == HighCount(c, i + 2, end);
        WalkCountsCodePoints(c, i + 2, end, col + 1, tabSize);
      } else {
        WalkCountsCodePoints(c, i + 1, end, col + 1, tabSize);
      }
    }
  }

  /** The first offset reports startingColumn (1 for empty content) and every offset at or
      past the end reports 1, whatever the number of lines. */
  lemma ColumnAtEnds(c: seq<CodeUnit>, startingColumn: int, tabSize: int)
    requires tabSize >= 1
    ensures Column(c, startingColumn, tabSize, 0) == (if c == [] then 1 else startingColumn)
    ensures forall pos :: pos >= |c| ==> Column(c, startingColumn, tabSize, pos) == 1
  {
  }

  /** The start of every line after the first reports column 1. */
  lemma ColumnAtLineStarts(c: seq<CodeUnit>, startingColumn: int, tabSize: int, k: int)
    requires tabSize >= 1 && 1 <= k < |LineStarts(c)|
    ensures LineStarts(c)[k] > 0 && Column(c, startingColumn, tabSize, LineStarts(c)[k]) == 1
  {
    LineStartsTable(c);
    var s := LineStarts(c);
    var pos := s[k];
    assert s[0] < s[k];
    assert 0 < pos < |c|;
    assert Floor(s, pos) == k;
    assert ColumnOnLine(c, startingColumn, tabSize, pos, k) == Some(1) by {
      if k in FlaggedLines(c) {
        var p := if IsLowSurrogate(c[pos]) then pos - 1 else pos;
        assert Walk(c, pos, p, 1, tabSize) == 1;
      }
    }
  }

  /** On a line without a tab or high surrogate before `pos` the column is the distance from
      the line start plus the adjustment, whether or not the line is flagged. */
  lemma ColumnWithoutTabs(c: seq<CodeUnit>, startingColumn: int, tabSize: int, pos: int)
    requires tabSize >= 1 && 0 < pos < |c|
    requires var s := LineStarts(c); var k := Floor(s, pos);
      0 <= k && (forall j :: 0 <= j < pos && s[k] <= j ==> c[j] != TAB && !IsHighSurrogate(c[j])) &&
      !IsLowSurrogate(c[pos])
    ensures var s := LineStarts(c); var k := Floor(s, pos);
      Column(c, startingColumn, tabSize, pos) == pos - s[k] + (if k > 0 then 1 else startingColumn)
  {
    var s := LineStarts(c);
    var k := Floor(s, pos);
    LineOfOffset(c, pos);
    ColumnOnOwnLine(c, startingColumn, tabSize, pos);
    var adjustment := if k > 0 then 1 else startingColumn;
    if k in FlaggedLines(c) {
      assert ColumnOnLine(c, startingColumn, tabSize, pos, k) == Some(Walk(c, s[k], pos, adjustment, tabSize));
      WalkLinear(c, s[k], pos, adjustment, tabSize);
    } else {
      assert ColumnOnLine(c, startingColumn, tabSize, pos, k) == Some(pos - s[k] + adjustment);
    }
  }

  /** On a line flagged for neither a tab nor a high surrogate the column is the distance from
      the line start plus the adjustment, whatever the unit at `pos` (a lone low surrogate
      included). */
  lemma ColumnOnUnflaggedLine(c: seq<CodeUnit>, startingColumn: int, tabSize: int, pos: int)
    requires tabSize >= 1 && 0 < pos < |c|
    ensures var s := LineStarts(c); var k := Floor(s, pos);
      0 <= k < |s| &&
      (k !in FlaggedLines(c) ==>
        Column(c, startingColumn, tabSize, pos) == pos - s[k] + (if k > 0 then 1 else startingColumn))
  {
    LineStartsTable(c);
  }

  /** Inside the content, the column is the one computed on the offset's own line. */
  lemma ColumnOnOwnLine(c: seq<CodeUnit>, startingColumn: int, tabSize: int, pos: int)
    requires tabSize >= 1 && 0 < pos < |c|
    ensures var k := CountNL(c[..pos]);
      0 <= k < |LineStarts(c)| && ColumnOnLine(c, startingColumn, tabSize, pos, k).Some? &&
      Column(c, startingColumn, tabSize, pos) == ColumnOnLine(c, startingColumn, tabSize, pos, k).value
  {
    LineOfOffset(c, pos);
    LineStartsTable(c);
  }

  /** The low half of a surrogate pair reports the same column as its high half. */
  lemma LowSurrogateSameColumn(c: seq<CodeUnit>, startingColumn: int, tabSize: int, pos: int)
    requires tabSize >= 1 && 0 < pos < |c|
    requires IsHighSurrogate(c[pos - 1]) && IsLowSurrogate(c[pos])
    ensures Column(c, startingColumn, tabSize, pos) == Column(c, startingColumn, tabSize, pos - 1)
  {
    var k := CountNL(c[..pos - 1]);
    CountNLSkipsUnit(c, pos);
    assert k in FlaggedLines(c);
    ColumnOnOwnLine(c, startingColumn, tabSize, pos);
    if pos - 1 > 0 {
      ColumnOnOwnLine(c, startingColumn, tabSize, pos - 1);
      var s := LineStarts(c);
      var adjustment := if k > 0 then 1 else startingColumn;
      assert ColumnOnLine(c, startingColumn, tabSize, pos, k) == Some(Walk(c, s[k], pos - 1, adjustment, tabSize));
      assert ColumnOnLine(c, startingColumn, tabSize, pos - 1, k) == Some(Walk(c, s[k], pos - 1, adjustment, tabSize));
    } else {
      assert k == 0 by {
        assert c[..0] == [];
      }
      LineStartsTable(c);
    }
  }

  /** A unit other than '\n' does not change the line count. */
  lemma CountNLSkipsUnit(c: seq<CodeUnit>, pos: int)
    requires 0 < pos <= |c| && c[pos - 1] != NL
    ensures CountNL(c[..pos]) == CountNL(c[..pos - 1])
  {
    assert c[..pos] == c[..pos - 1] + [c[pos - 1]];
    CountNLAppend(c[..pos - 1], [c[pos - 1]]);
    assert CountNL([c[pos - 1]]) == 0 by {
      assert [c[pos - 1]][..0] == [];
    }
  }

  /** When startingLine + line index never drops below 1 (in particular for startingLine >= 1)
      the source's column agrees with Column. */
  lemma ColumnAsWrittenAgrees(c: seq<CodeUnit>, startingLine: int, startingColumn: int, tabSize: int, pos: int)
    requires tabSize >= 1 && 0 <= pos && startingLine >= 1
    ensures ColumnAsWritten(c, startingLine, startingColumn, tabSize, pos) == Some(Column(c, startingColumn, tabSize, pos))
  {
    if 0 < pos < |c| {
      LineFromOffsetIsFloor(c, startingLine, pos);
      LineStartsTable(c);
      var k := Floor(LineStarts(c), pos);
      assert k >= 0;
      assert LineFromOffset(c, startingLine, pos).value - startingLine == k;
      var r := ColumnOnLine(c, startingColumn, tabSize, pos, k);
      assert ColumnAsWritten(c, startingLine, startingColumn, tabSize, pos) == r;
      assert Column(c, startingColumn, tabSize, pos) == r.value;
    }
  }

  /** With startingColumn >= 1 every column is at least 1. */
  lemma ColumnPositive(c: seq<CodeUnit>, startingColumn: int, tabSize: int, pos: int)
    requires tabSize >= 1 && 0 <= pos && startingColumn >= 1
    ensures Column(c, startingColumn, tabSize, pos) >= 1
  {
    if 0 < pos < |c| {
      LineStartsTable(c);
      var s := LineStarts(c);
      var k := Floor(s, pos);
      var p := if IsLowSurrogate(c[pos]) then pos - 1 else pos;
      WalkAtLeast(c, s[k], p, if k > 0 then 1 else startingColumn, tabSize);
    }
  }

  /** With startingLine 0 the source takes line index 1 for an offset on the first line: on
      "a\nb" the '\n' at offset 1 gets column 0 instead of 2. */
  lemma ColumnAsWrittenClampMismatch()
    ensures ColumnAsWritten([97, NL, 98], 0, 1, 1, 1) == Some(0)
    ensures Column([97, NL, 98], 1, 1, 1) == 2
  {
    var c: seq<CodeUnit> := [97, NL, 98];
    assert Starts(c, 1) == [0];
    assert Starts(c, 2) == [0, 2];
    assert LineStarts(c) == [0, 2];
    assert FlaggedLines(c) == {} by {
      forall i | 0 <= i < |c| ensures !(c[i] == TAB || IsHighSurrogate(c[i])) { }
    }
    assert Floor([0, 2], 1) == 0;
    assert BinarySearch([0, 2], 1) == -2;
  }
}
