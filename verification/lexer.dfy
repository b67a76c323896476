/**
 * SNBTLexer as a class: the munged content and its line table, the cursor, the offset table
 * and presence bits of the token cache, and the arena of tokens it has vended. Every method is
 * proved against the functions of the Munge, Lines, Tokens and Scanner modules.
 */
module Lexer {
  import opened Text
  import opened Munge
  import opened Lines
  import opened Tokens
  import opened Scanner

  /** Whether setParsedLines (reversed = false) or setUnparsedLines (reversed = true) turns off
      the line with 1-based number `n`. */
  predicate TurnsOff(lines: set<int>, reversed: bool, n: int)
  {
    if reversed then n in lines else n !in lines
  }

  /** The table with every offset below `lim` that lies on a turned-off line made IGNORED. */
  function MaskedBelow(c: seq<CodeUnit>, tbl: seq<TokenRef>, lines: set<int>, reversed: bool, lim: int): (r: seq<TokenRef>)
    requires |tbl| == |c| + 1
    ensures |r| == |tbl|
  {
    seq(|tbl|, i requires 0 <= i < |tbl| =>
      if i < lim && i < |c| && TurnsOff(lines, reversed, CountNL(c[..i]) + 1) then Ignored else tbl[i])
  }

  /** The table after setParsedLines / setUnparsedLines. */
  function Masked(c: seq<CodeUnit>, tbl: seq<TokenRef>, lines: set<int>, reversed: bool): (r: seq<TokenRef>)
    requires |tbl| == |c| + 1
    ensures |r| == |tbl|
  {
    MaskedBelow(c, tbl, lines, reversed, |c|)
  }

  /** Every offset from one line start up to the next (or to the end) lies on that line. */
  lemma OffsetOnLine(c: seq<CodeUnit>, i: int, o: int)
    requires 0 <= i < |LineStarts(c)|
    requires 0 <= o < |c|
    requires LineStarts(c)[i] <= o < (if i + 1 < |LineStarts(c)| then LineStarts(c)[i + 1] else |c|)
    ensures CountNL(c[..o]) == i
  {
    var s := LineStarts(c);
    LineStartsTable(c);
    LineOfOffset(c, o);
    assert forall j :: i < j < |s| ==> s[j] >= s[i + 1];
  }

  /** Masking one more line: below the next line start the table is the one below this line's
      start with this line's offsets made IGNORED when the line is turned off. */
  lemma MaskedBelowStep(c: seq<CodeUnit>, tbl: seq<TokenRef>, lines: set<int>, reversed: bool, i: int)
    requires |tbl| == |c| + 1 && 0 <= i < |LineStarts(c)|
    ensures var s := LineStarts(c);
      var lo := s[i];
      var hi := if i + 1 < |s| then s[i + 1] else |c|;
      var before := MaskedBelow(c, tbl, lines, reversed, lo);
      MaskedBelow(c, tbl, lines, reversed, hi) ==
        seq(|tbl|, j requires 0 <= j < |tbl| =>
          if lo <= j < hi && TurnsOff(lines, reversed, i + 1) then Ignored else before[j])
  {
    var s := LineStarts(c);
    LineStartsTable(c);
    forall o | s[i] <= o < (if i + 1 < |s| then s[i + 1] else |c|)
      ensures CountNL(c[..o]) == i
    {
      OffsetOnLine(c, i, o);
    }
  }

  /** Whether a cached token may be handed out again: it has a type and that type is active. */
  predicate Active(st: Store, r: TokenRef, active: set<TokenType>)
    requires ValidRef(st, r)
  {
    KindOf(st, r).Some? && KindOf(st, r).value in active
  }

  /** getNextToken(tok) for a token `t`, cursor at `pos`: the token cached after `t` when it is
      usable; otherwise a scan from the end of `t`, after forgetting the cache beyond `t` when an
      unusable token was cached there. */
  function NextAfter(nfa: Nfa, active: set<TokenType>, c: seq<CodeUnit>, st: Store, pos: int, t: nat): Lexing
    requires WfStore(st, |c|) && t < |st.tokens|
  {
    var cached := NextOf(st, |c|, Tok(t));
    if cached != Null && Active(st, cached, active) then Lexing(st, cached, pos)
    else
      UncacheForgets(st, |c|, t);
      var from := if cached != Null then Uncache(st, t) else st;
      Lexed(nfa, active, c, from, SkipIgnored(st.table, |c|, st.tokens[t].end))
  }

  /** `prefix` put in front of a collected run, None staying None. */
  function Prepend(prefix: seq<TokenRef>, rest: Option<seq<TokenRef>>): Option<seq<TokenRef>>
  {
    if rest.None? then None else Some(prefix + rest.value)
  }

  /** What getNextToken() leaves behind: the store, the token it returns and the cursor. */
  datatype Lexing = Lexing(st: Store, token: TokenRef, cursor: int)

  /** The tokens getNextToken() makes from what it gathered: the merged invalid token (if any)
      and the token that ended the run are added to the arena and cached at their begin offsets,
      over the table the scan left behind. The invalid token is returned when there is one, with
      the cursor moved to its end (past IGNORED offsets); otherwise the scanned token is returned
      and the cursor is at its end. */
  function Emit(tokens: seq<TokenRec>, bits: seq<bool>, len: nat, g: Gathered): Lexing
    requires |bits| == len + 1 && |g.token.tbl| == len + 1 && 0 <= g.token.begin <= g.token.end <= len
    requires g.invalid.Some? ==> 0 <= g.invalid.value.0 < g.invalid.value.1 <= g.token.begin
  {
    var s0 := Store(tokens, g.token.tbl, bits);
    var n := |tokens|;
    var tok := NewToken(g.token.kind, g.token.begin, g.token.end);
    match g.invalid
    case None =>
      Lexing(Register(s0.(tokens := tokens + [tok]), g.token.begin, Tok(n)), Tok(n), g.token.end)
    case Some(span) =>
      var s1 := Register(s0.(tokens := tokens + [NewToken(Invalid, span.0, span.1)]), span.0, Tok(n));
      var s2 := Register(s1.(tokens := s1.tokens + [tok]), g.token.begin, Tok(n + 1));
      Lexing(s2, Tok(n), SkipIgnored(s2.table, len, span.1))
  }

  /** getNextToken() from cursor `pos`. */
  function Lexed(nfa: Nfa, active: set<TokenType>, c: seq<CodeUnit>, st: Store, pos: int): Lexing
    requires WfStore(st, |c|) && 0 <= pos <= |c|
  {
    Emit(st.tokens, st.bits, |c|, Gather(nfa, active, c, st.table, pos, None))
  }

  /** The tokens made from what was gathered: one or two new tokens after the old ones, the
      first returned, invalid exactly when there was invalid input, and found by the cache at its
      begin offset unless that offset is IGNORED. */
  lemma EmitEffect(st: Store, len: nat, g: Gathered)
    requires WfStore(st, len) && |g.token.tbl| == len + 1 && 0 <= g.token.begin <= g.token.end <= len
    requires g.invalid.Some? ==> 0 <= g.invalid.value.0 < g.invalid.value.1 <= g.token.begin
    requires forall i :: 0 <= i < |g.token.tbl| ==> RefIn(g.token.tbl[i], |st.tokens|)
    ensures var l := Emit(st.tokens, st.bits, len, g);
      var n := |st.tokens|;
      WfStore(l.st, len) && |l.st.tokens| == n + (if g.invalid.Some? then 2 else 1) &&
      l.st.tokens[..n] == st.tokens && l.token == Tok(n) &&
      l.st.tokens[n].kind == (if g.invalid.Some? then Invalid else g.token.kind) &&
      l.st.tokens[n].begin == (if g.invalid.Some? then g.invalid.value.0 else g.token.begin) &&
      (l.st.table[l.st.tokens[n].begin] != Ignored ==> LexerNextCached(l.st, l.st.tokens[n].begin) == l.token)
  {
    var l := Emit(st.tokens, st.bits, len, g);
    var n := |st.tokens|;
    var b := l.st.tokens[n].begin;
    if l.st.table[b] != Ignored {
      assert NextSetBit(l.st.bits, b) == b;
    }
  }

  /** getNextToken() adds one token (or an invalid one and the token after it) to the arena
      without changing the others, keeps the store well formed, returns the first new token,
      which is invalid exactly when invalid input came first and otherwise of a regular type,
      begins at or after the cursor, and is the token the cache finds at its begin offset unless
      that offset is IGNORED; the cursor never moves back. */
  lemma LexedEffect(nfa: Nfa, active: set<TokenType>, c: seq<CodeUnit>, st: Store, pos: int)
    requires WfStore(st, |c|) && 0 <= pos <= |c|
    ensures var l := Lexed(nfa, active, c, st, pos);
      var g := Gather(nfa, active, c, st.table, pos, None);
      var n := |st.tokens|;
      WfStore(l.st, |c|) && |l.st.tokens| == n + (if g.invalid.Some? then 2 else 1) &&
      l.st.tokens[..n] == st.tokens && l.token == Tok(n) &&
      (l.st.tokens[n].kind == Invalid <==> g.invalid.Some?) &&
      (g.invalid.None? ==> IsRegular(l.st.tokens[n].kind)) &&
      pos <= l.st.tokens[n].begin &&
      (l.st.table[l.st.tokens[n].begin] != Ignored ==> LexerNextCached(l.st, l.st.tokens[n].begin) == l.token) &&
      pos <= l.cursor <= |c|
  {
    var g := Gather(nfa, active, c, st.table, pos, None);
    GatherTable(nfa, active, c, st.table, pos, None);
    EmitEffect(st, |c|, g);
  }

  /** getNextToken(tok) hands out a usable cached successor as it is, with nothing changed and
      nothing scanned. Otherwise it makes a new token that begins at or after the end of `tok`,
      and keeps every earlier token (of `tok` itself at most its appended link is dropped). */
  lemma NextAfterEffect(nfa: Nfa, active: set<TokenType>, c: seq<CodeUnit>, st: Store, pos: int, t: nat)
    requires WfStore(st, |c|) && t < |st.tokens|
    ensures var l := NextAfter(nfa, active, c, st, pos, t);
      var cached := NextOf(st, |c|, Tok(t));
      var n := |st.tokens|;
      if cached != Null && Active(st, cached, active) then
        l.st == st && l.token == cached && l.cursor == pos
      else
        WfStore(l.st, |c|) && l.token == Tok(n) && n < |l.st.tokens| &&
        st.tokens[t].end <= l.st.tokens[n].begin &&
        (forall k :: 0 <= k < n && k != t ==> l.st.tokens[k] == st.tokens[k]) &&
        l.st.tokens[t].kind == st.tokens[t].kind && l.st.tokens[t].end == st.tokens[t].end
  {
    var cached := NextOf(st, |c|, Tok(t));
    if !(cached != Null && Active(st, cached, active)) {
      UncacheForgets(st, |c|, t);
      var from := if cached != Null then Uncache(st, t) else st;
      var p := SkipIgnored(st.table, |c|, st.tokens[t].end);
      LexedEffect(nfa, active, c, from, p);
    }
  }

  /** Masking only writes IGNORED, so it keeps a store well formed. */
  lemma MaskedKeepsWf(st: Store, c: seq<CodeUnit>, lines: set<int>, reversed: bool)
    requires WfStore(st, |c|)
    ensures WfStore(st.(table := Masked(c, st.table, lines, reversed)), |c|)
  {
  }

  /** setParsedLines turns off exactly the offsets of turned-off lines; IGNORED slots stay
      IGNORED and every other slot keeps its value. */
  lemma MaskedEffect(c: seq<CodeUnit>, tbl: seq<TokenRef>, lines: set<int>, reversed: bool)
    requires |tbl| == |c| + 1
    ensures var r := Masked(c, tbl, lines, reversed);
      forall i :: 0 <= i < |tbl| ==>
        (r[i] == Ignored <==> tbl[i] == Ignored || (i < |c| && TurnsOff(lines, reversed, CountNL(c[..i]) + 1))) &&
        (r[i] != Ignored ==> r[i] == tbl[i])
    ensures Masked(c, Masked(c, tbl, lines, reversed), lines, reversed) == Masked(c, tbl, lines, reversed)
  {
  }

  class SnbtLexer {
    const content: seq<CodeUnit>
    const nfa: Nfa
    const startingLine: int
    const startingColumn: int
    const lineOffsets: array<int>
    const needToCalculateColumns: set<int>
    const tokenLocationTable: array<TokenRef>
    var tabSize: int
    var bufferPosition: int
    var tokens: seq<TokenRec>
    var tokenOffsets: seq<bool>
    var activeTokenTypes: set<TokenType>
    var lexicalState: LexicalState

    /** The token cache and arena as one value. */
    function St(): Store
      reads this`tokens, this`tokenOffsets, tokenLocationTable
    {
      Store(tokens, tokenLocationTable[..], tokenOffsets)
    }

    /** The invariant of everything but the cursor. */
    ghost predicate Valid()
      reads this`tokens, this`tokenOffsets, this`tabSize, tokenLocationTable, lineOffsets
    {
      tokenLocationTable.Length == |content| + 1 && |tokenOffsets| == |content| + 1 &&
      WfStore(St(), |content|) &&
      lineOffsets[..] == LineStarts(content) &&
      needToCalculateColumns == FlaggedLines(content) &&
      tabSize >= 1
    }

    /** The cursor lies within the content or at its end. */
    ghost predicate Cursor()
      reads this`bufferPosition
    {
      0 <= bufferPosition <= |content|
    }

    /** SNBTLexer(inputSource, input, lexState, startingLine, startingColumn): munge the input,
        build the line table, and start with an empty cache at offset 0. */
    constructor (input: seq<CodeUnit>, nfa: Nfa, startingLine: int, startingColumn: int)
      ensures Valid() && Cursor() && fresh(tokenLocationTable) && fresh(lineOffsets)
      ensures content == ConstructorMunge(input) && this.nfa == nfa
      ensures this.startingLine == startingLine && this.startingColumn == startingColumn
      ensures bufferPosition == 0 && tokens == [] && tabSize == 1 && lexicalState == Snbt
      ensures tokenLocationTable[..] == seq(|content| + 1, _ => Null)
      ensures tokenOffsets == seq(|content| + 1, _ => false)
      ensures activeTokenTypes == set t | t in AllTypes
    {
      var c := MungeContent(input, true, false, false);
      var offsets, flags := CreateLineOffsetsTable(c);
      content := c;
      this.nfa := nfa;
      this.startingLine := startingLine;
      this.startingColumn := startingColumn;
      tabSize := 1;
      lineOffsets := offsets;
      needToCalculateColumns := flags;
      bufferPosition := 0;
      tokens := [];
      tokenLocationTable := new TokenRef[|c| + 1](_ => Null);
      tokenOffsets := seq(|c| + 1, _ => false);
      activeTokenTypes := set t | t in AllTypes;
      lexicalState := Snbt;
    }

    /** setTabSize. */
    method SetTabSize(n: int)
      requires Valid() && n >= 1
      modifies this`tabSize
      ensures Valid() && tabSize == n
    {
      tabSize := n;
    }

    /** goTo: move the cursor to `offset`, then over any IGNORED offsets. */
    method GoTo(offset: int)
      requires Valid() && 0 <= offset <= |content|
      modifies this`bufferPosition
      ensures Cursor() && bufferPosition == SkipIgnored(tokenLocationTable[..], |content|, offset)
    {
      var o := offset;
      while o < |content| && tokenLocationTable[o] == Ignored
        invariant offset <= o <= |content|
        invariant SkipIgnored(tokenLocationTable[..], |content|, o) == SkipIgnored(tokenLocationTable[..], |content|, offset)
        decreases |content| - o
      {
        o := o + 1;
      }
      bufferPosition := o;
    }

    /** readChar: the next code point at or after the cursor, or -1 at the end. */
    method ReadChar() returns (cp: int)
      requires Valid() && Cursor()
      modifies this`bufferPosition
      ensures Cursor() && Char(cp, bufferPosition) == Read(content, tokenLocationTable[..], old(bufferPosition))
    {
      var p := bufferPosition;
      while tokenLocationTable[p] == Ignored && p < |content|
        invariant old(bufferPosition) <= p <= |content|
        invariant SkipIgnored(tokenLocationTable[..], |content|, p) == SkipIgnored(tokenLocationTable[..], |content|, old(bufferPosition))
        decreases |content| - p
      {
        p := p + 1;
      }
      if p >= |content| {
        bufferPosition := p;
        return -1;
      }
      var ch := content[p];
      p := p + 1;
      cp := ch;
      if IsHighSurrogate(ch) && p < |content| {
        var nextChar := content[p];
        if IsLowSurrogate(nextChar) {
          p := p + 1;
          cp := ToCodePoint(ch, nextChar);
        }
      }
      bufferPosition := p;
    }

    /** setParsedLines(lines, reversed): make IGNORED every offset of each line turned off. */
    method SetParsedLines(lines: set<int>, reversed: bool)
      requires Valid()
      modifies tokenLocationTable
      ensures Valid()
      ensures tokenLocationTable[..] == Masked(content, old(tokenLocationTable[..]), lines, reversed)
    {
      MaskLines(lines, reversed);
      MaskedKeepsWf(old(St()), content, lines, reversed);
    }

    /** The loops of setParsedLines, over the line table. */
    method MaskLines(lines: set<int>, reversed: bool)
      requires tokenLocationTable.Length == |content| + 1 && lineOffsets[..] == LineStarts(content)
      modifies tokenLocationTable
      ensures tokenLocationTable[..] == Masked(content, old(tokenLocationTable[..]), lines, reversed)
    {
      ghost var tbl := tokenLocationTable[..];
      if content != [] {
        LineStartsTable(content);
      }
      var i := 0;
      while i < lineOffsets.Length
        invariant 0 <= i <= lineOffsets.Length
        invariant tokenLocationTable.Length == |tbl|
        invariant tokenLocationTable[..] ==
          MaskedBelow(content, tbl, lines, reversed, if i < lineOffsets.Length then lineOffsets[i] else |content|)
      {
        var turnOffLine := i + 1 !in lines;
        if reversed {
          turnOffLine := !turnOffLine;
        }
        var lineOffset := lineOffsets[i];
        var nextLineOffset := if i < lineOffsets.Length - 1 then lineOffsets[i + 1] else |content|;
        MaskedBelowStep(content, tbl, lines, reversed, i);
        assert turnOffLine == TurnsOff(lines, reversed, i + 1);
        assert lineOffset == LineStarts(content)[i];
        ghost var before := tokenLocationTable[..];
        if turnOffLine {
          IgnoreRange(lineOffset, nextLineOffset);
        }
        assert tokenLocationTable[..] == seq(|tbl|, j requires 0 <= j < |tbl| =>
          if lineOffset <= j < nextLineOffset && TurnsOff(lines, reversed, i + 1) then Ignored else before[j]);
        i := i + 1;
      }
      MaskedEffect(content, tbl, lines, reversed);
    }

    /** The inner loop of setParsedLines: make [lo, hi) IGNORED. */
    method IgnoreRange(lo: int, hi: int)
      requires 0 <= lo <= hi <= tokenLocationTable.Length
      modifies tokenLocationTable
      ensures forall j :: 0 <= j < tokenLocationTable.Length ==>
        tokenLocationTable[j] == if lo <= j < hi then Ignored else old(tokenLocationTable[j])
    {
      var offset := lo;
      while offset < hi
        invariant lo <= offset <= hi
        invariant forall j :: 0 <= j < tokenLocationTable.Length ==>
          tokenLocationTable[j] == if lo <= j < offset then Ignored else old(tokenLocationTable[j])
      {
        tokenLocationTable[offset] := Ignored;
        offset := offset + 1;
      }
    }

    /** getText(a, b). */
    method GetText(a: int, b: int) returns (r: seq<CodeUnit>)
      requires Valid() && 0 <= a && b <= |content|
      ensures r == TextOf(content, tokenLocationTable[..], a, b)
    {
      r := [];
      var offset := a;
      while offset < b
        invariant a <= offset && (a <= b ==> offset <= b)
        invariant r + TextOf(content, tokenLocationTable[..], offset, b) == TextOf(content, tokenLocationTable[..], a, b)
        decreases b - offset
      {
        ghost var rest := TextOf(content, tokenLocationTable[..], offset + 1, b);
        var piece := if tokenLocationTable[offset] != Ignored then [content[offset]] else [];
        assert TextOf(content, tokenLocationTable[..], offset, b) == piece + rest;
        assert r + (piece + rest) == (r + piece) + rest;
        r := r + piece;
        offset := offset + 1;
      }
    }

    /** getCodePointColumnFromOffset, with the line found by binary search over the line table
        (see Lines.ColumnAsWritten for the version that goes through getLineFromOffset). */
    method CodePointColumn(pos: int) returns (col: int)
      requires Valid() && 0 <= pos
      ensures col == Column(content, startingColumn, tabSize, pos)
    {
      if pos >= |content| {
        return 1;
      }
      if pos == 0 {
        return startingColumn;
      }
      LineStartsTable(content);
      var b := BinarySearch(lineOffsets[..], pos);
      var line := if b >= 0 then b else -(b + 2);
      assert line == Floor(LineStarts(content), pos);
      var lineStart := lineOffsets[line];
      var adjustment := if line > 0 then 1 else startingColumn;
      if line !in needToCalculateColumns {
        return pos - lineStart + adjustment;
      }
      var p := pos;
      if IsLowSurrogate(content[p]) {
        p := p - 1;
      }
      col := WalkColumns(content, lineStart, p, adjustment, tabSize);
      assert ColumnOnLine(content, startingColumn, tabSize, pos, line) == Some(col);
    }

    /** nextToken's state loop for one code point: the union of the states entered from each
        live state, and the lowest-ordinal type any of them reports. */
    method ApplyStates(states: set<nat>, cp: int) returns (next: set<nat>, newType: Option<TokenType>)
      ensures next == Successors(nfa, states, cp, activeTokenTypes)
      ensures newType == Lowest(Reported(nfa, states, cp, activeTokenTypes))
    {
      next := {};
      newType := None;
      var rest := states;
      ghost var seen: set<nat> := {};
      while rest != {}
        invariant seen + rest == states
        invariant next == Successors(nfa, seen, cp, activeTokenTypes)
        invariant newType == Lowest(Reported(nfa, seen, cp, activeTokenTypes))
        decreases rest
      {
        var s :| s in rest;
        var step := nfa.step(s, cp, activeTokenTypes);
        ApplyOne(nfa, seen, s, cp, activeTokenTypes, newType);
        next := next + step.0;
        if step.1.Some? && (newType.None? || Ordinal(step.1.value) < Ordinal(newType.value)) {
          newType := step.1;
        }
        rest := rest - {s};
        seen := seen + {s};
      }
    }

    /** The core NFA loop of nextToken, entered after the first code point was read from `b`. */
    method RunMachine(ghost b: int, firstChar: int) returns (matched: Option<TokenType>, matchedPos: nat, units: nat)
      requires Valid() && Cursor() && 0 <= b <= |content|
      requires firstChar != -1 && Char(firstChar, bufferPosition) == Read(content, tokenLocationTable[..], b)
      modifies this`bufferPosition
      ensures Cursor()
      ensures Run(matched, matchedPos, units, bufferPosition) ==
        RunNfa(nfa, activeTokenTypes, content, tokenLocationTable[..], b, {0}, 0, None, 0)
    {
      var f := Consume({0}, 0, firstChar);
      var pos := if f.kind.Some? then f.units else 0;
      RunNfaFirstStep(nfa, activeTokenTypes, content, tokenLocationTable[..], b, Char(firstChar, bufferPosition));
      matched, matchedPos, units := RunFrom(f.states, f.units, f.kind, pos);
    }

    /** The core NFA loop after its first pass: feed code points to the live states until none
        is live or the input ends. */
    method RunFrom(states0: set<nat>, units0: nat, matched0: Option<TokenType>, matchedPos0: nat)
      returns (matched: Option<TokenType>, matchedPos: nat, units: nat)
      requires Valid() && Cursor() && matchedPos0 <= units0
      modifies this`bufferPosition
      ensures Cursor()
      ensures Run(matched, matchedPos, units, bufferPosition) ==
        RunNfa(nfa, activeTokenTypes, content, tokenLocationTable[..], old(bufferPosition), states0, units0, matched0, matchedPos0)
    {
      var states := states0;
      matched, matchedPos, units := matched0, matchedPos0, units0;
      while states != {}
        invariant Cursor() && matchedPos <= units
        invariant RunNfa(nfa, activeTokenTypes, content, tokenLocationTable[..], bufferPosition, states, units, matched, matchedPos) ==
          RunNfa(nfa, activeTokenTypes, content, tokenLocationTable[..], old(bufferPosition), states0, units0, matched0, matchedPos0)
        decreases |content| - bufferPosition
      {
        var f := FeedOne(states, units);
        if f.None? {
          break;
        }
        units := f.value.units;
        if f.value.kind.Some? {
          matched, matchedPos := f.value.kind, units;
        }
        states := f.value.states;
      }
    }

    /** One turn of the inner loop: read a code point and, unless the input has ended, feed it
        to the live states, as Scanner.Feed computes it. */
    method FeedOne(states: set<nat>, units: nat) returns (f: Option<Fed>)
      requires Valid() && Cursor() && states != {}
      modifies this`bufferPosition
      ensures Cursor()
      ensures f == Feed(nfa, activeTokenTypes, content, tokenLocationTable[..], old(bufferPosition), states, units)
      ensures bufferPosition == Read(content, tokenLocationTable[..], old(bufferPosition)).next
    {
      var cp := ReadChar();
      if cp < 0 {
        return None;
      }
      var fed := Consume(states, units, cp);
      return Some(fed);
    }

    /** One pass of the core NFA loop on the code point just read: the code units read so far,
        the type chosen, the cursor and the states entered, as Scanner.Feed computes them. */
    method Consume(states: set<nat>, units: nat, cp: int) returns (f: Fed)
      requires cp != -1
      ensures f == Fed(units + Width(cp), Lowest(Reported(nfa, states, cp, activeTokenTypes)), bufferPosition,
                       Successors(nfa, states, cp, activeTokenTypes))
    {
      var next, newType := ApplyStates(states, cp);
      var codeUnitsRead := units + 1;
      if cp > 0xFFFF {
        codeUnitsRead := codeUnitsRead + 1;
      }
      f := Fed(codeUnitsRead, newType, bufferPosition, next);
    }

    /** nextToken: attempts from the cursor until one yields a token, marking skipped input
        SKIPPED on the way. Returns the token's type and begin offset; the cursor is left at
        its end. */
    method NextToken() returns (kind: TokenType, begin: int)
      requires Valid() && Cursor()
      modifies this`bufferPosition, tokenLocationTable
      ensures Valid() && Cursor()
      ensures Scanned(kind, begin, bufferPosition, tokenLocationTable[..]) ==
        Scan(nfa, activeTokenTypes, content, old(tokenLocationTable[..]), old(bufferPosition))
    {
      while true
        invariant Valid() && Cursor()
        invariant Scan(nfa, activeTokenTypes, content, tokenLocationTable[..], bufferPosition) ==
          Scan(nfa, activeTokenTypes, content, old(tokenLocationTable[..]), old(bufferPosition))
        decreases |content| - bufferPosition
      {
        var tokenBeginOffset := bufferPosition;
        var outcome := AttemptAt();
        match outcome
        case NoMatch(_) =>
          return Invalid, tokenBeginOffset;
        case Matched(matchedType, _) =>
          if IsSkipped(matchedType) {
            MarkSkippedRange(tokenBeginOffset, bufferPosition);
          } else if IsRegular(matchedType) {
            return matchedType, tokenBeginOffset;
          }
      }
    }

    /** One pass of nextToken's outer loop up to the rewind: read the first code point (EOF
        when there is none), run the NFA, and leave the cursor at the end of the longest match,
        or one code point past the start when nothing matched. */
    method AttemptAt() returns (outcome: Outcome)
      requires Valid() && Cursor()
      modifies this`bufferPosition
      ensures Cursor() && bufferPosition == outcome.end
      ensures outcome == Attempt(nfa, activeTokenTypes, content, tokenLocationTable[..], old(bufferPosition))
    {
      var tokenBeginOffset := bufferPosition;
      var firstChar := ReadChar();
      var matchedType: Option<TokenType>, matchedPos: nat, codeUnitsRead: nat;
      if firstChar == -1 {
        matchedType, matchedPos, codeUnitsRead := Some(Eof), 0, 0;
      } else {
        matchedType, matchedPos, codeUnitsRead := RunMachine(tokenBeginOffset, firstChar);
      }
      if matchedType.None? {
        bufferPosition := tokenBeginOffset + 1;
        if firstChar > 0xFFFF {
          bufferPosition := bufferPosition + 1;
        }
        return NoMatch(bufferPosition);
      }
      bufferPosition := bufferPosition - (codeUnitsRead - matchedPos);
      outcome := Matched(matchedType.value, bufferPosition);
    }

    /** The loop of nextToken that marks a skipped match: its offsets become SKIPPED, IGNORED
        ones excepted. */
    method MarkSkippedRange(a: int, e: int)
      requires Valid() && 0 <= a <= e <= |content|
      modifies tokenLocationTable
      ensures Valid() && tokenLocationTable[..] == MarkSkipped(old(tokenLocationTable[..]), a, e)
    {
      ghost var tbl := tokenLocationTable[..];
      var i := a;
      while i < e
        invariant a <= i <= e
        invariant forall j :: 0 <= j < tokenLocationTable.Length ==>
          tokenLocationTable[j] == if a <= j < i && tbl[j] != Ignored then Skipped else tbl[j]
      {
        if tokenLocationTable[i] != Ignored {
          tokenLocationTable[i] := Skipped;
        }
        i := i + 1;
      }
      assert tokenLocationTable[..] == MarkSkipped(tbl, a, e);
    }

    /** cacheToken: an inserted token hands over to its cached successor; any other token is
        stored at its begin offset unless that offset is IGNORED. The hand-over chain is followed
        for at most `fuel` steps (false when it is longer). */
    method CacheToken(r: TokenRef, fuel: nat) returns (done: bool)
      requires Valid() && ValidRef(St(), r) && r != Null
      modifies this`tokenOffsets, tokenLocationTable
      ensures Valid()
      ensures var c := Cache(old(St()), |content|, r, fuel);
        done == c.Some? && St() == (if c.Some? then c.value else old(St()))
      decreases fuel
    {
      CacheEffect(St(), |content|, r, fuel);
      if Inserted(St(), r) {
        var next := NextOf(St(), |content|, r);
        if next == Null {
          return true;
        }
        if fuel == 0 {
          return false;
        }
        done := CacheToken(next, fuel - 1);
        return;
      }
      var offset := BeginOf(St(), r);
      if tokenLocationTable[offset] != Ignored {
        tokenOffsets := tokenOffsets[offset := true];
        tokenLocationTable[offset] := r;
      }
      done := true;
    }

    /** uncacheTokens: forget the cached offsets from the end of `t` on and drop t's appended
        link. */
    method UncacheTokens(t: nat)
      requires Valid() && t < |tokens|
      modifies this`tokenOffsets, this`tokens
      ensures Valid() && St() == Uncache(old(St()), t)
    {
      UncacheForgets(St(), |content|, t);
      var endOffset := tokens[t].end;
      var bits := tokenOffsets;
      tokenOffsets := seq(|bits|, i requires 0 <= i < |bits| => bits[i] && i < endOffset);
      tokens := tokens[t := tokens[t].(appended := Null)];
    }

    /** getNextToken(): scan, merging a run of invalid tokens into one; cache what was found and
        return the invalid token first when there is one. */
    method GetNextToken() returns (r: TokenRef)
      requires Valid() && Cursor()
      modifies this`bufferPosition, this`tokens, this`tokenOffsets, tokenLocationTable
      ensures Valid() && Cursor()
      ensures Lexing(St(), r, bufferPosition) == Lexed(nfa, activeTokenTypes, content, old(St()), old(bufferPosition))
    {
      var invalid, kind, begin := GatherTokens();
      r := CacheGathered(invalid, kind, begin);
    }

    /** The loop of getNextToken(): call nextToken while it yields invalid tokens, merging their
        spans. */
    method GatherTokens() returns (invalid: Option<(int, int)>, kind: TokenType, begin: int)
      requires Valid() && Cursor()
      modifies this`bufferPosition, tokenLocationTable
      ensures Valid() && Cursor()
      ensures Gathered(invalid, Scanned(kind, begin, bufferPosition, tokenLocationTable[..])) ==
        Gather(nfa, activeTokenTypes, content, old(tokenLocationTable[..]), old(bufferPosition), None)
    {
      ghost var g0 := Gather(nfa, activeTokenTypes, content, tokenLocationTable[..], bufferPosition, None);
      invalid := None;
      ghost var prevTbl := tokenLocationTable[..];
      ghost var prevB := bufferPosition;
      kind, begin := NextToken();
      while kind == Invalid
        invariant Valid() && Cursor()
        invariant 0 <= prevB <= |content| && |prevTbl| == |content| + 1
        invariant invalid.Some? ==> 0 <= invalid.value.0 < invalid.value.1 <= prevB
        invariant Gather(nfa, activeTokenTypes, content, prevTbl, prevB, invalid) == g0
        invariant Scanned(kind, begin, bufferPosition, tokenLocationTable[..]) ==
          Scan(nfa, activeTokenTypes, content, prevTbl, prevB)
        decreases |content| - prevB
      {
        if invalid.None? {
          invalid := Some((begin, bufferPosition));
        } else {
          invalid := Some((invalid.value.0, bufferPosition));
        }
        prevTbl, prevB := tokenLocationTable[..], bufferPosition;
        kind, begin := NextToken();
      }
    }

    /** The end of getNextToken(): make the merged invalid token (if any) and the token that
        ended the run, cache both, and return the invalid one first, moving the cursor to its end. */
    method CacheGathered(invalid: Option<(int, int)>, kind: TokenType, begin: int) returns (r: TokenRef)
      requires Valid() && 0 <= begin <= bufferPosition <= |content|
      requires invalid.Some? ==> 0 <= invalid.value.0 < invalid.value.1 <= begin
      requires forall i :: 0 <= i < tokenLocationTable.Length ==> RefIn(tokenLocationTable[i], |tokens|)
      modifies this`bufferPosition, this`tokens, this`tokenOffsets, tokenLocationTable
      ensures Valid() && Cursor()
      ensures Lexing(St(), r, bufferPosition) ==
        Emit(old(tokens), old(tokenOffsets), |content|,
             Gathered(invalid, Scanned(kind, begin, old(bufferPosition), old(tokenLocationTable[..]))))
    {
      var n := |tokens|;
      var done;
      if invalid.Some? {
        tokens := tokens + [NewToken(Invalid, invalid.value.0, invalid.value.1)];
        done := CacheToken(Tok(n), 0);
      }
      var t := |tokens|;
      tokens := tokens + [NewToken(kind, begin, bufferPosition)];
      done := CacheToken(Tok(t), 0);
      if invalid.Some? {
        GoTo(invalid.value.1);
        return Tok(n);
      }
      return Tok(t);
    }

    /** getNextToken(offset): move the cursor to `offset` (past IGNORED offsets) and scan. */
    method GetNextTokenAt(offset: int) returns (r: TokenRef)
      requires Valid() && 0 <= offset <= |content|
      modifies this`bufferPosition, this`tokens, this`tokenOffsets, tokenLocationTable
      ensures Valid() && Cursor()
      ensures Lexing(St(), r, bufferPosition) ==
        Lexed(nfa, activeTokenTypes, content, old(St()), SkipIgnored(old(tokenLocationTable[..]), |content|, offset))
    {
      GoTo(offset);
      r := GetNextToken();
    }

    /** getNextToken(tok): with no token, scan from the cursor. Otherwise reuse the token cached
        after `tok` if there is one of an active type; a cached token of an inactive type (or a
        marker, which has no type) is thrown away by resetting to `tok`; without a usable cached
        token, scan from the end of `tok`. */
    method GetNextTokenAfter(tok: Option<nat>) returns (r: TokenRef)
      requires Valid() && Cursor() && (tok.Some? ==> tok.value < |tokens|)
      modifies this`bufferPosition, this`tokens, this`tokenOffsets, this`lexicalState, tokenLocationTable
      ensures Valid() && Cursor() && lexicalState == old(lexicalState)
      ensures tok.None? ==>
        Lexing(St(), r, bufferPosition) == Lexed(nfa, activeTokenTypes, content, old(St()), old(bufferPosition))
      ensures tok.Some? ==>
        (Lexing(St(), r, bufferPosition) == NextAfter(nfa, activeTokenTypes, content, old(St()), old(bufferPosition), tok.value))
    {
      if tok.None? {
        r := GetNextToken();
      } else {
        r := GetNextTokenFollowing(tok.value);
      }
    }

    /** getNextToken(tok) for a token `t` of the arena. */
    method GetNextTokenFollowing(t: nat) returns (r: TokenRef)
      requires Valid() && Cursor() && t < |tokens|
      modifies this`bufferPosition, this`tokens, this`tokenOffsets, this`lexicalState, tokenLocationTable
      ensures Valid() && Cursor() && lexicalState == old(lexicalState)
      ensures Lexing(St(), r, bufferPosition) == NextAfter(nfa, activeTokenTypes, content, old(St()), old(bufferPosition), t)
    {
      var cachedToken := NextOf(St(), |content|, Tok(t));
      if cachedToken != Null && !Active(St(), cachedToken, activeTokenTypes) {
        r := ResetAndScan(t);
        return;
      }
      if cachedToken != Null {
        return cachedToken;
      }
      r := GetNextTokenAt(tokens[t].end);
    }

    /** getNextToken(tok) when the token cached after `t` is unusable: reset to `t`, which forgets
        the cache from its end on, and scan from there. */
    method ResetAndScan(t: nat) returns (r: TokenRef)
      requires Valid() && t < |tokens|
      modifies this`bufferPosition, this`tokens, this`tokenOffsets, this`lexicalState, tokenLocationTable
      ensures Valid() && Cursor() && lexicalState == old(lexicalState)
      ensures Lexing(St(), r, bufferPosition) ==
        Lexed(nfa, activeTokenTypes, content, Uncache(old(St()), t), SkipIgnored(old(tokenLocationTable[..]), |content|, old(tokens[t].end)))
    {
      ghost var st := St();
      Reset(t, None);
      UncacheForgets(st, |content|, t);
      assert St() == Uncache(st, t) && tokenLocationTable[..] == st.table;
      r := GetNextTokenAt(tokens[t].end);
    }

    /** switchTo: enter lexical state `s`; true when that changed the state. (The lexer has a
        single lexical state, so the source's test-then-assign is written as one assignment.) */
    method SwitchTo(s: LexicalState) returns (changed: bool)
      modifies this`lexicalState
      ensures lexicalState == s && changed == (old(lexicalState) != s)
    {
      changed := lexicalState != s;
      lexicalState := s;
    }

    /** reset(t, state): move the cursor to the end of `t`, forget the cache from there on and
        t's appended link, and enter `state` when one is given. */
    method Reset(t: nat, state: Option<LexicalState>)
      requires Valid() && t < |tokens|
      modifies this`bufferPosition, this`tokenOffsets, this`tokens, this`lexicalState
      ensures Valid() && Cursor()
      ensures bufferPosition == SkipIgnored(tokenLocationTable[..], |content|, old(tokens[t].end))
      ensures St() == Uncache(old(St()), t)
      ensures lexicalState == if state.Some? then state.value else old(lexicalState)
    {
      GoTo(tokens[t].end);
      UncacheTokens(t);
      if state.Some? {
        var _ := SwitchTo(state.value);
      }
    }

    /** Token.preInsert on `t` with `p`: splice `p` in right before `t` as an empty inserted token
        at t's begin offset (nothing happens when `p` already is t's prepended token). */
    method PreInsertToken(t: nat, p: nat)
      requires Valid() && t < |tokens| && p < |tokens|
      modifies this`tokens
      ensures Valid() && St() == PreInsert(old(St()), |content|, t, p)
    {
      PreInsertKeepsWf(St(), |content|, t, p);
      if tokens[t].prepended == Tok(p) {
        return;
      }
      tokens := tokens[p := tokens[p].(appended := Tok(t))];
      var existingPreviousToken := PreviousOf(St(), |content|, Tok(t));
      if existingPreviousToken.Tok? {
        tokens := tokens[existingPreviousToken.id := tokens[existingPreviousToken.id].(appended := Tok(p))];
      }
      if existingPreviousToken != Null {
        tokens := tokens[p := tokens[p].(prepended := existingPreviousToken)];
      }
      var b := tokens[t].begin;
      tokens := tokens[p := tokens[p].(inserted := true, begin := b, end := b)];
      tokens := tokens[t := tokens[t].(prepended := Tok(p))];
    }

    /** Token.replaceType on `t`: a new token of type `kind` takes t's place in the chain and,
        unless it is inserted, in the cache. Returns the new token. */
    method ReplaceTypeOf(t: nat, kind: TokenType) returns (r: nat)
      requires Valid() && t < |tokens|
      modifies this`tokens, this`tokenOffsets, tokenLocationTable
      ensures Valid() && r == old(|tokens|)
      ensures St() == ReplaceType(old(St()), |content|, t, kind)
    {
      ReplaceTypeEffect(St(), |content|, t, kind);
      var o := tokens[t];
      r := |tokens|;
      tokens := tokens + [NewToken(kind, o.begin, o.end).(prepended := o.prepended, appended := o.appended, inserted := o.inserted)];
      if o.appended.Tok? {
        tokens := tokens[o.appended.id := tokens[o.appended.id].(prepended := Tok(r))];
      }
      if o.prepended.Tok? {
        tokens := tokens[o.prepended.id := tokens[o.prepended.id].(appended := Tok(r))];
      }
      if !o.inserted {
        var _ := CacheToken(Tok(r), 0);
      }
    }

    /** Token.getNext: follow the links forward past unparsed tokens. */
    method GetNext(t: nat) returns (w: Walked)
      requires Valid() && t < |tokens|
      ensures w == NextParsed(St(), |content|, t)
    {
      var result := NextOf(St(), |content|, Tok(t));
      var fuel := Budget(St());
      while result != Null && Unparsed(St(), result)
        invariant ValidRef(St(), result)
        invariant SkipUnparsed(St(), |content|, result, fuel, true) == NextParsed(St(), |content|, t)
        decreases fuel
      {
        if fuel == 0 {
          return Cut;
        }
        result := NextOf(St(), |content|, result);
        fuel := fuel - 1;
      }
      return Reached(result);
    }

    /** Token.getPrevious: follow the links backward past unparsed tokens. */
    method GetPrevious(t: nat) returns (w: Walked)
      requires Valid() && t < |tokens|
      ensures w == PreviousParsed(St(), |content|, t)
    {
      var result := PreviousOf(St(), |content|, Tok(t));
      var fuel := Budget(St());
      while result != Null && Unparsed(St(), result)
        invariant ValidRef(St(), result)
        invariant SkipUnparsed(St(), |content|, result, fuel, false) == PreviousParsed(St(), |content|, t)
        decreases fuel
      {
        if fuel == 0 {
          return Cut;
        }
        result := PreviousOf(St(), |content|, result);
        fuel := fuel - 1;
      }
      return Reached(result);
    }

    /** Token.precedingUnparsedTokens: the unparsed tokens walked over backwards from `t`, in
        input order (None when the walk does not stop within the budget). */
    method PrecedingUnparsedTokens(t: nat) returns (r: Option<seq<TokenRef>>)
      requires Valid() && t < |tokens|
      ensures r == PrecedingUnparsed(St(), |content|, t)
    {
      var result: seq<TokenRef> := [];
      var first := PreviousOf(St(), |content|, Tok(t));
      var cur := first;
      var fuel := Budget(St());
      assert Prepend(result, CollectUnparsed(St(), |content|, cur, fuel)) == CollectUnparsed(St(), |content|, first, fuel) by {
        assert forall x: seq<TokenRef> :: [] + x == x;
      }
      while cur != Null && Unparsed(St(), cur)
        invariant ValidRef(St(), cur)
        invariant CollectUnparsed(St(), |content|, first, Budget(St())) ==
          Prepend(result, CollectUnparsed(St(), |content|, cur, fuel))
        decreases fuel
      {
        if fuel == 0 {
          return None;
        }
        ghost var rest := CollectUnparsed(St(), |content|, PreviousOf(St(), |content|, cur), fuel - 1);
        assert rest.Some? ==> result + ([cur] + rest.value) == (result + [cur]) + rest.value;
        result := result + [cur];
        cur := PreviousOf(St(), |content|, cur);
        fuel := fuel - 1;
      }
      assert result + [] == result;
      r := Some(Reverse(result));
    }
  }
}
