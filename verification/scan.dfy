/**
 * The scanning half of SNBTLexer as functions of the content and the offset table: the cursor
 * that steps over IGNORED offsets, code-point reads, the maximal-munch NFA driver of nextToken,
 * and the coalescing of invalid input done by getNextToken(). The per-state transition
 * functions (SNBTNfaData) are not part of this model: they are the parameter `nfa`.
 */
module Scanner {
  import opened Text
  import opened Tokens

  /** The NFA's transition functions: from a state, on a code point, with the active token
      types, the states entered next and the type (if any) that state reports. */
  datatype Nfa = Nfa(step: (nat, int, set<TokenType>) -> (set<nat>, Option<TokenType>))

  /** The lexical states; this lexer has just one. */
  datatype LexicalState = Snbt

  /** The first offset at or after `pos` whose slot is not IGNORED, or `len` (goTo, and the
      skipping loop at the head of readChar). */
  function SkipIgnored(tbl: seq<TokenRef>, len: nat, pos: int): (p: int)
    requires 0 <= pos && len < |tbl|
    ensures pos <= p && (p == pos || p <= len)
    ensures forall i :: pos <= i < p ==> tbl[i] == Ignored
    ensures p < len ==> tbl[p] != Ignored
    decreases len - pos
  {
    if pos >= len || tbl[pos] != Ignored then pos else SkipIgnored(tbl, len, pos + 1)
  }

  /** What readChar returns and where it leaves the cursor. */
  datatype Char = Char(cp: int, next: int)

  /** The number of code units a code point read from the content occupies. */
  function Width(cp: int): nat { if cp > 0xFFFF then 2 else 1 }

  /** readChar: skip IGNORED offsets; at the end -1; a high surrogate directly followed by a
      low one is read as one supplementary code point; any other unit is read alone. */
  function Read(c: seq<CodeUnit>, tbl: seq<TokenRef>, pos: int): (r: Char)
    requires 0 <= pos <= |c| && |tbl| == |c| + 1
    ensures pos <= r.next <= |c|
    ensures r.cp == -1 ==> r.next == |c|
    ensures r.cp != -1 ==> 0 <= r.cp <= 0x10FFFF && r.next >= pos + Width(r.cp)
    ensures pos < |c| && tbl[pos] != Ignored ==> r.cp != -1 && r.next == pos + Width(r.cp)
  {
    var p := SkipIgnored(tbl, |c|, pos);
    if p >= |c| then Char(-1, p)
    else if IsHighSurrogate(c[p]) && p + 1 < |c| && IsLowSurrogate(c[p + 1]) then
      Char(ToCodePoint(c[p], c[p + 1]), p + 2)
    else Char(c[p], p + 1)
  }

  /** readChar returns -1 exactly when no offset at or after the cursor is left un-IGNORED;
      otherwise it reads at the first such offset, a surrogate pair as one code point over two
      units and any other unit as itself over one. */
  lemma ReadSpec(c: seq<CodeUnit>, tbl: seq<TokenRef>, pos: int)
    requires 0 <= pos <= |c| && |tbl| == |c| + 1
    ensures Read(c, tbl, pos).cp == -1 <==> forall i :: pos <= i < |c| ==> tbl[i] == Ignored
    ensures var r := Read(c, tbl, pos);
      var p := SkipIgnored(tbl, |c|, pos);
      r.cp != -1 ==>
        p < |c| && tbl[p] != Ignored && (forall i :: pos <= i < p ==> tbl[i] == Ignored) &&
        (r.cp > 0xFFFF <==> IsHighSurrogate(c[p]) && p + 1 < |c| && IsLowSurrogate(c[p + 1])) &&
        (r.cp > 0xFFFF ==> r.cp == ToCodePoint(c[p], c[p + 1]) && r.next == p + 2) &&
        (r.cp <= 0xFFFF ==> r.cp == c[p] && r.next == p + 1)
  {
  }

  /** The states entered from `states` on `cp`. */
  function Successors(nfa: Nfa, states: set<nat>, cp: int, active: set<TokenType>): set<nat>
  {
    set s, x | s in states && x in nfa.step(s, cp, active).0 :: x
  }

  /** The types reported by `states` on `cp`. */
  function Reported(nfa: Nfa, states: set<nat>, cp: int, active: set<TokenType>): set<TokenType>
  {
    set s | s in states && nfa.step(s, cp, active).1.Some? :: nfa.step(s, cp, active).1.value
  }

  /** The outcome of the inner NFA loop: the last type matched and the code units read up to
      that match, the code units read in all, and where the cursor ended. */
  datatype Run = Run(matched: Option<TokenType>, matchedPos: nat, units: nat, end: int)

  /** Adding one state to the live set adds its successors and its reported type. */
  lemma SuccessorsAdd(nfa: Nfa, states: set<nat>, s: nat, cp: int, active: set<TokenType>)
    ensures Successors(nfa, states + {s}, cp, active) == Successors(nfa, states, cp, active) + nfa.step(s, cp, active).0
    ensures Reported(nfa, states + {s}, cp, active) ==
      Reported(nfa, states, cp, active) + (if nfa.step(s, cp, active).1.Some? then {nfa.step(s, cp, active).1.value} else {})
  {
  }

  /** Applying one more state: the successors grow by its own, and the lowest reported type
      becomes its type exactly when that is lower than the lowest so far. */
  lemma ApplyOne(nfa: Nfa, seen: set<nat>, s: nat, cp: int, active: set<TokenType>, newType: Option<TokenType>)
    requires newType == Lowest(Reported(nfa, seen, cp, active))
    ensures var step := nfa.step(s, cp, active);
      Successors(nfa, seen + {s}, cp, active) == Successors(nfa, seen, cp, active) + step.0 &&
      Lowest(Reported(nfa, seen + {s}, cp, active)) ==
        if step.1.Some? && (newType.None? || Ordinal(step.1.value) < Ordinal(newType.value)) then step.1 else newType
  {
    SuccessorsAdd(nfa, seen, s, cp, active);
    var step := nfa.step(s, cp, active);
    var reported := Reported(nfa, seen, cp, active);
    if step.1.Some? {
      assert Reported(nfa, seen + {s}, cp, active) == reported + {step.1.value};
      LowestAdd(reported, step.1.value);
    } else {
      assert Reported(nfa, seen + {s}, cp, active) == reported;
    }
  }

  /** One step of the inner NFA loop: the code units read so far, the type chosen (the lowest
      ordinal among those reported), the cursor after the read and the states entered. */
  datatype Fed = Fed(units: nat, kind: Option<TokenType>, next: int, states: set<nat>)

  /** Feed the next code point to every live state; None when no state is live or the input has
      ended. */
  function Feed(nfa: Nfa, active: set<TokenType>, c: seq<CodeUnit>, tbl: seq<TokenRef>, pos: int,
                states: set<nat>, units: nat): (f: Option<Fed>)
    requires 0 <= pos <= |c| && |tbl| == |c| + 1
    ensures f.Some? ==> pos < f.value.next <= |c| && f.value.units > units && f.value.next - f.value.units >= pos - units
    ensures f.Some? && pos < |c| && tbl[pos] != Ignored ==> f.value.next - f.value.units == pos - units
    ensures f.None? && states != {} ==> Read(c, tbl, pos).next == |c|
    ensures f.None? && states != {} && pos < |c| ==> tbl[pos] == Ignored
  {
    if states == {} then None
    else
      var ch := Read(c, tbl, pos);
      if ch.cp == -1 then None
      else Some(Fed(units + Width(ch.cp), Lowest(Reported(nfa, states, ch.cp, active)), ch.next,
                    Successors(nfa, states, ch.cp, active)))
  }

  /** The inner NFA loop, from the cursor `pos` with the live `states`: feed code points and keep
      the latest step's chosen type as the match, until no state is live or the input ends. */
  function RunNfa(nfa: Nfa, active: set<TokenType>, c: seq<CodeUnit>, tbl: seq<TokenRef>, pos: int,
                  states: set<nat>, units: nat, matched: Option<TokenType>, matchedPos: nat): (r: Run)
    requires 0 <= pos <= |c| && |tbl| == |c| + 1 && matchedPos <= units
    ensures matchedPos <= r.matchedPos <= r.units && units <= r.units
    ensures pos <= r.end <= |c| && r.end - r.units >= pos - units
    ensures matched.Some? ==> r.matched.Some?
    ensures r.matched.Some? && matched.None? ==> r.matchedPos > units
    decreases |c| - pos
  {
    var f := Feed(nfa, active, c, tbl, pos, states, units);
    if f.None? then Run(matched, matchedPos, units, if states == {} then pos else Read(c, tbl, pos).next)
    else
      var m := f.value;
      RunNfa(nfa, active, c, tbl, m.next, m.states, m.units,
             if m.kind.Some? then m.kind else matched, if m.kind.Some? then m.units else matchedPos)
  }

  /** The first turn of the inner loop from the cursor `b`, when a code point is there: the run
      goes on from where that code point ends, with the states and type it produced. */
  lemma RunNfaFirstStep(nfa: Nfa, active: set<TokenType>, c: seq<CodeUnit>, tbl: seq<TokenRef>, b: int, ch: Char)
    requires 0 <= b <= |c| && |tbl| == |c| + 1 && ch == Read(c, tbl, b) && ch.cp != -1
    ensures RunNfa(nfa, active, c, tbl, b, {0}, 0, None, 0) ==
      RunNfa(nfa, active, c, tbl, ch.next, Successors(nfa, {0}, ch.cp, active), Width(ch.cp),
             Lowest(Reported(nfa, {0}, ch.cp, active)),
             if Lowest(Reported(nfa, {0}, ch.cp, active)).Some? then Width(ch.cp) else 0)
  {
  }

  /** One pass of nextToken's outer loop from the cursor `b`. */
  datatype Outcome = NoMatch(end: int) | Matched(kind: TokenType, end: int)

  function Attempt(nfa: Nfa, active: set<TokenType>, c: seq<CodeUnit>, tbl: seq<TokenRef>, b: int): (a: Outcome)
    requires 0 <= b <= |c| && |tbl| == |c| + 1
    ensures a.end <= |c|
    ensures b < a.end || (a.Matched? && a.kind == Eof && a.end == |c|)
    ensures a.NoMatch? ==> a.end == b + Width(Read(c, tbl, b).cp) && (a.end == b + 1 || a.end == b + 2)
  {
    var first := Read(c, tbl, b);
    if first.cp == -1 then Matched(Eof, first.next)
    else
      var run := RunNfa(nfa, active, c, tbl, b, {0}, 0, None, 0);
      if run.matched.None? then NoMatch(b + Width(first.cp))
      else Matched(run.matched.value, run.end - (run.units - run.matchedPos))
  }

  /** The table after a skipped match over [a, e): its slots become SKIPPED, IGNORED ones excepted. */
  function MarkSkipped(tbl: seq<TokenRef>, a: int, e: int): (r: seq<TokenRef>)
    ensures |r| == |tbl|
  {
    seq(|tbl|, i requires 0 <= i < |tbl| => if a <= i < e && tbl[i] != Ignored then Skipped else tbl[i])
  }

  /** What nextToken returns: a token's type and span, and the table it leaves behind. The
      cursor ends at the token's end. */
  datatype Scanned = Scanned(kind: TokenType, begin: int, end: int, tbl: seq<TokenRef>)

  /** nextToken: run attempts until one yields a token. A skipped match marks its span and goes
      on; a match of a type that is neither regular nor skipped goes on as well; no match at all
      is an invalid token. */
  function Scan(nfa: Nfa, active: set<TokenType>, c: seq<CodeUnit>, tbl: seq<TokenRef>, b: int): (r: Scanned)
    requires 0 <= b <= |c| && |tbl| == |c| + 1
    ensures |r.tbl| == |tbl| && b <= r.begin <= r.end <= |c|
    ensures r.kind == Invalid || IsRegular(r.kind)
    ensures r.begin < r.end || (r.kind == Eof && r.end == |c|)
    ensures r.kind == Invalid ==> r.end == r.begin + 1 || r.end == r.begin + 2
    decreases |c| - b
  {
    match Attempt(nfa, active, c, tbl, b)
    case NoMatch(e) => Scanned(Invalid, b, e, tbl)
    case Matched(k, e) =>
      if IsSkipped(k) then Scan(nfa, active, c, MarkSkipped(tbl, b, e), e)
      else if IsRegular(k) then Scanned(k, b, e, tbl)
      else Scan(nfa, active, c, tbl, e)
  }

  /** What getNextToken() collects: the merged span of a run of invalid tokens (if any) and the
      token that ended the run. */
  datatype Gathered = Gathered(invalid: Option<(int, int)>, token: Scanned)

  function Gather(nfa: Nfa, active: set<TokenType>, c: seq<CodeUnit>, tbl: seq<TokenRef>, b: int,
                  inv: Option<(int, int)>): (g: Gathered)
    requires 0 <= b <= |c| && |tbl| == |c| + 1
    requires inv.Some? ==> 0 <= inv.value.0 < inv.value.1 <= b
    ensures |g.token.tbl| == |tbl| && b <= g.token.begin <= g.token.end <= |c| && IsRegular(g.token.kind)
    ensures inv.None? && g.invalid.Some? ==> b <= g.invalid.value.0
    ensures g.invalid.Some? ==> 0 <= g.invalid.value.0 < g.invalid.value.1 <= g.token.begin
    ensures inv.Some? ==> g.invalid.Some? && g.invalid.value.0 == inv.value.0 && inv.value.1 <= g.invalid.value.1
    decreases |c| - b
  {
    var s := Scan(nfa, active, c, tbl, b);
    if s.kind == Invalid then
      Gather(nfa, active, c, s.tbl, s.end, Some(if inv.None? then (s.begin, s.end) else (inv.value.0, s.end)))
    else Gathered(inv, s)
  }

  /** The steps of the inner NFA loop: for each code point fed, the code units read so far and
      the type chosen at that step. */
  function Trace(nfa: Nfa, active: set<TokenType>, c: seq<CodeUnit>, tbl: seq<TokenRef>, pos: int,
                 states: set<nat>, units: nat): (tr: seq<(nat, Option<TokenType>)>)
    requires 0 <= pos <= |c| && |tbl| == |c| + 1
    decreases |c| - pos
  {
    var f := Feed(nfa, active, c, tbl, pos, states, units);
    if f.None? then []
    else [(f.value.units, f.value.kind)] + Trace(nfa, active, c, tbl, f.value.next, f.value.states, f.value.units)
  }

  /** The code units read grow from step to step. */
  lemma {:induction false} TraceIncreasing(nfa: Nfa, active: set<TokenType>, c: seq<CodeUnit>, tbl: seq<TokenRef>, pos: int,
                                           states: set<nat>, units: nat)
    requires 0 <= pos <= |c| && |tbl| == |c| + 1
    ensures forall i :: 0 <= i < |Trace(nfa, active, c, tbl, pos, states, units)| ==>
      Trace(nfa, active, c, tbl, pos, states, units)[i].0 > units
    ensures forall i, j :: 0 <= i < j < |Trace(nfa, active, c, tbl, pos, states, units)| ==>
      Trace(nfa, active, c, tbl, pos, states, units)[i].0 < Trace(nfa, active, c, tbl, pos, states, units)[j].0
    decreases |c| - pos
  {
    TraceAbove(nfa, active, c, tbl, pos, states, units);
    var f := Feed(nfa, active, c, tbl, pos, states, units);
    if f.Some? {
      var m := f.value;
      TraceIncreasing(nfa, active, c, tbl, m.next, m.states, m.units);
      TraceAbove(nfa, active, c, tbl, m.next, m.states, m.units);
      assert Trace(nfa, active, c, tbl, pos, states, units) ==
        [(m.units, m.kind)] + Trace(nfa, active, c, tbl, m.next, m.states, m.units);
      ConsIncreasing((m.units, m.kind), Trace(nfa, active, c, tbl, m.next, m.states, m.units));
    }
  }

  /** A step below every later step, put in front of an increasing trace, keeps it increasing. */
  lemma ConsIncreasing(x: (nat, Option<TokenType>), rest: seq<(nat, Option<TokenType>)>)
    requires forall i :: 0 <= i < |rest| ==> rest[i].0 > x.0
    requires forall i, j :: 0 <= i < j < |rest| ==> rest[i].0 < rest[j].0
    ensures forall i, j :: 0 <= i < j < |[x] + rest| ==> ([x] + rest)[i].0 < ([x] + rest)[j].0
  {
    var tr := [x] + rest;
    forall i, j | 0 <= i < j < |tr| ensures tr[i].0 < tr[j].0 {
      assert tr[j] == rest[j - 1];
      if i > 0 {
        assert tr[i] == rest[i - 1];
      }
    }
  }

  /** Every step of the trace has read more code units than the trace started with. */
  lemma {:induction false} TraceAbove(nfa: Nfa, active: set<TokenType>, c: seq<CodeUnit>, tbl: seq<TokenRef>, pos: int,
                                      states: set<nat>, units: nat)
    requires 0 <= pos <= |c| && |tbl| == |c| + 1
    ensures forall i :: 0 <= i < |Trace(nfa, active, c, tbl, pos, states, units)| ==>
      Trace(nfa, active, c, tbl, pos, states, units)[i].0 > units
    decreases |c| - pos
  {
    var f := Feed(nfa, active, c, tbl, pos, states, units);
    if f.Some? {
      var m := f.value;
      TraceAbove(nfa, active, c, tbl, m.next, m.states, m.units);
      var tr := Trace(nfa, active, c, tbl, pos, states, units);
      var rest := Trace(nfa, active, c, tbl, m.next, m.states, m.units);
      assert tr == [(m.units, m.kind)] + rest;
      forall i | 0 <= i < |tr| ensures tr[i].0 > units {
        if i > 0 {
          assert tr[i] == rest[i - 1];
        }
      }
    }
  }

  /** The index of the last step of `tr` that matched, or -1. */
  function LastMatch(tr: seq<(nat, Option<TokenType>)>): (k: int)
    ensures -1 <= k < |tr|
    ensures k == -1 <==> forall i :: 0 <= i < |tr| ==> tr[i].1.None?
    ensures k >= 0 ==> tr[k].1.Some? && forall j :: k < j < |tr| ==> tr[j].1.None?
  {
    if tr == [] then -1
    else
      var k := LastMatch(tr[1..]);
      if k >= 0 then k + 1 else if tr[0].1.Some? then 0 else -1
  }

  /** The inner loop keeps the type of the last step that matched, and the code units read up
      to that step; with no matching step it keeps what it started with. */
  lemma {:induction false} RunNfaKeepsLastMatch(nfa: Nfa, active: set<TokenType>, c: seq<CodeUnit>, tbl: seq<TokenRef>,
                                                pos: int, states: set<nat>, units: nat, matched: Option<TokenType>, matchedPos: nat)
    requires 0 <= pos <= |c| && |tbl| == |c| + 1 && matchedPos <= units
    ensures var r := RunNfa(nfa, active, c, tbl, pos, states, units, matched, matchedPos);
      var tr := Trace(nfa, active, c, tbl, pos, states, units);
      var k := LastMatch(tr);
      (k == -1 ==> r.matched == matched && r.matchedPos == matchedPos) &&
      (k >= 0 ==> r.matched == tr[k].1 && r.matchedPos == tr[k].0)
    decreases |c| - pos
  {
    var f := Feed(nfa, active, c, tbl, pos, states, units);
    if f.Some? {
      var m := f.value;
      var matched' := if m.kind.Some? then m.kind else matched;
      var matchedPos' := if m.kind.Some? then m.units else matchedPos;
      RunNfaKeepsLastMatch(nfa, active, c, tbl, m.next, m.states, m.units, matched', matchedPos');
      var rest := Trace(nfa, active, c, tbl, m.next, m.states, m.units);
      var r := RunNfa(nfa, active, c, tbl, m.next, m.states, m.units, matched', matchedPos');
      assert Trace(nfa, active, c, tbl, pos, states, units) == [(m.units, m.kind)] + rest;
      assert RunNfa(nfa, active, c, tbl, pos, states, units, matched, matchedPos) == r;
      LastMatchStep((m.units, m.kind), rest, r.matched, r.matchedPos, matched, matchedPos);
    }
  }

  /** If a run from the second step keeps the last match of the rest of the trace (or what it
      started with, the first step's match if any), the whole run keeps the last match of the
      whole trace (or what it started with). */
  lemma LastMatchStep(x: (nat, Option<TokenType>), rest: seq<(nat, Option<TokenType>)>,
                      rm: Option<TokenType>, rp: nat, matched: Option<TokenType>, matchedPos: nat)
    requires var k := LastMatch(rest);
      var m' := if x.1.Some? then x.1 else matched;
      var p' := if x.1.Some? then x.0 else matchedPos;
      (k == -1 ==> rm == m' && rp == p') && (k >= 0 ==> rm == rest[k].1 && rp == rest[k].0)
    ensures var tr := [x] + rest;
      var k := LastMatch(tr);
      (k == -1 ==> rm == matched && rp == matchedPos) && (k >= 0 ==> rm == tr[k].1 && rp == tr[k].0)
  {
    LastMatchCons(x, rest);
  }

  /** The last match of a longer trace: the last match of its tail, shifted, if there is one;
      otherwise its first step if that matched. */
  lemma LastMatchCons(x: (nat, Option<TokenType>), rest: seq<(nat, Option<TokenType>)>)
    ensures var k := LastMatch(rest);
      LastMatch([x] + rest) == if k >= 0 then k + 1 else if x.1.Some? then 0 else -1
    ensures forall i :: 0 <= i < |rest| ==> ([x] + rest)[i + 1] == rest[i]
  {
    assert ([x] + rest)[1..] == rest;
  }

  /** Inner-loop progress with no IGNORED offset ahead: each code point read takes exactly its own
      code units, so the cursor ends exactly as many units on as were read. */
  lemma {:induction false} RunNfaExactWithoutIgnored(nfa: Nfa, active: set<TokenType>, c: seq<CodeUnit>, tbl: seq<TokenRef>,
                                                     pos: int, states: set<nat>, units: nat, matched: Option<TokenType>, matchedPos: nat)
    requires 0 <= pos <= |c| && |tbl| == |c| + 1 && matchedPos <= units
    requires forall i :: pos <= i < |c| ==> tbl[i] != Ignored
    ensures var r := RunNfa(nfa, active, c, tbl, pos, states, units, matched, matchedPos);
      r.end - r.units == pos - units
    decreases |c| - pos
  {
    var f := Feed(nfa, active, c, tbl, pos, states, units);
    if f.Some? {
      var m := f.value;
      RunNfaExactWithoutIgnored(nfa, active, c, tbl, m.next, m.states, m.units,
        if m.kind.Some? then m.kind else matched, if m.kind.Some? then m.units else matchedPos);
    }
  }

  /** Maximal munch: when anything matched, the token is of the type chosen at the last step that
      matched (the lowest ordinal among the types reported at that step), and every matching step
      read at most as many code units as that one. With no IGNORED offset ahead, the cursor is
      rewound to exactly the end of that longest match. */
  lemma MaximalMunch(nfa: Nfa, active: set<TokenType>, c: seq<CodeUnit>, tbl: seq<TokenRef>, b: int)
    requires 0 <= b <= |c| && |tbl| == |c| + 1 && Read(c, tbl, b).cp != -1
    ensures var tr := Trace(nfa, active, c, tbl, b, {0}, 0);
      var a := Attempt(nfa, active, c, tbl, b);
      var k := LastMatch(tr);
      (a.NoMatch? <==> k == -1) &&
      (a.Matched? ==>
        k >= 0 && tr[k].1 == Some(a.kind) &&
        (forall j :: 0 <= j < |tr| && tr[j].1.Some? ==> tr[j].0 <= tr[k].0) &&
        ((forall i :: b <= i < |c| ==> tbl[i] != Ignored) ==> a.end == b + tr[k].0))
  {
    MunchChoice(nfa, active, c, tbl, b);
    var tr := Trace(nfa, active, c, tbl, b, {0}, 0);
    TraceIncreasing(nfa, active, c, tbl, b, {0}, 0);
    LastMatchLongest(tr);
    if forall i :: b <= i < |c| ==> tbl[i] != Ignored {
      RunNfaExactWithoutIgnored(nfa, active, c, tbl, b, {0}, 0, None, 0);
    }
  }

  /** A pass matches exactly when some step of the trace matched, with the type of the last such
      step; its end is the cursor rewound over the units read after that step. */
  lemma MunchChoice(nfa: Nfa, active: set<TokenType>, c: seq<CodeUnit>, tbl: seq<TokenRef>, b: int)
    requires 0 <= b <= |c| && |tbl| == |c| + 1 && Read(c, tbl, b).cp != -1
    ensures var tr := Trace(nfa, active, c, tbl, b, {0}, 0);
      var run := RunNfa(nfa, active, c, tbl, b, {0}, 0, None, 0);
      var a := Attempt(nfa, active, c, tbl, b);
      var k := LastMatch(tr);
      (a.NoMatch? <==> k == -1) &&
      (a.Matched? ==> k >= 0 && tr[k].1 == Some(a.kind) && a.end == run.end - (run.units - tr[k].0))
  {
    RunNfaKeepsLastMatch(nfa, active, c, tbl, b, {0}, 0, None, 0);
    var run := RunNfa(nfa, active, c, tbl, b, {0}, 0, None, 0);
    assert Attempt(nfa, active, c, tbl, b) == if run.matched.None? then NoMatch(b + Width(Read(c, tbl, b).cp))
      else Matched(run.matched.value, run.end - (run.units - run.matchedPos));
  }

  /** In a trace whose unit counts increase, the last matching step read the most units of all
      matching steps. */
  lemma LastMatchLongest(tr: seq<(nat, Option<TokenType>)>)
    requires forall i, j :: 0 <= i < j < |tr| ==> tr[i].0 < tr[j].0
    ensures var k := LastMatch(tr);
      k >= 0 ==> forall j :: 0 <= j < |tr| && tr[j].1.Some? ==> tr[j].0 <= tr[k].0
  {
    var k := LastMatch(tr);
    if k >= 0 {
      forall j | 0 <= j < |tr| && tr[j].1.Some? ensures tr[j].0 <= tr[k].0 {
        assert j <= k;
      }
    }
  }

  /** With nothing but IGNORED offsets left, nextToken yields EOF spanning from the cursor to the
      end of the content and leaves the table alone; scanning again at the end yields EOF again. */
  lemma ScanAtEnd(nfa: Nfa, active: set<TokenType>, c: seq<CodeUnit>, tbl: seq<TokenRef>, b: int)
    requires 0 <= b <= |c| && |tbl| == |c| + 1
    requires forall i :: b <= i < |c| ==> tbl[i] == Ignored
    ensures Scan(nfa, active, c, tbl, b) == Scanned(Eof, b, |c|, tbl)
    ensures Scan(nfa, active, c, tbl, |c|) == Scanned(Eof, |c|, |c|, tbl)
  {
    ReadSpec(c, tbl, b);
    ReadSpec(c, tbl, |c|);
  }

  /** Scanning only turns slots of skipped input into SKIPPED: an IGNORED slot stays IGNORED and
      no other slot becomes IGNORED, and slots outside [b, token begin) are untouched. */
  lemma {:induction false} ScanTable(nfa: Nfa, active: set<TokenType>, c: seq<CodeUnit>, tbl: seq<TokenRef>, b: int)
    requires 0 <= b <= |c| && |tbl| == |c| + 1
    ensures var r := Scan(nfa, active, c, tbl, b);
      forall i :: 0 <= i < |tbl| ==>
        (r.tbl[i] == Ignored <==> tbl[i] == Ignored) &&
        (r.tbl[i] == tbl[i] || (b <= i < r.begin && r.tbl[i] == Skipped))
    decreases |c| - b
  {
    match Attempt(nfa, active, c, tbl, b)
    case NoMatch(e) =>
    case Matched(k, e) =>
      if IsSkipped(k) {
        ScanTable(nfa, active, c, MarkSkipped(tbl, b, e), e);
      } else if !IsRegular(k) {
        ScanTable(nfa, active, c, tbl, e);
      }
  }

  /** The scans of getNextToken() only turn slots into SKIPPED: an IGNORED slot stays IGNORED,
      and every other slot keeps its value or becomes SKIPPED. */
  lemma {:induction false} GatherTable(nfa: Nfa, active: set<TokenType>, c: seq<CodeUnit>, tbl: seq<TokenRef>, b: int,
                                       inv: Option<(int, int)>)
    requires 0 <= b <= |c| && |tbl| == |c| + 1
    requires inv.Some? ==> 0 <= inv.value.0 < inv.value.1 <= b
    ensures var g := Gather(nfa, active, c, tbl, b, inv);
      forall i :: 0 <= i < |tbl| ==>
        (g.token.tbl[i] == Ignored <==> tbl[i] == Ignored) && (g.token.tbl[i] == tbl[i] || g.token.tbl[i] == Skipped)
    decreases |c| - b
  {
    var s := Scan(nfa, active, c, tbl, b);
    ScanTable(nfa, active, c, tbl, b);
    if s.kind == Invalid {
      GatherTable(nfa, active, c, s.tbl, s.end, Some(if inv.None? then (s.begin, s.end) else (inv.value.0, s.end)));
    }
  }

  /** getNextToken(): with no invalid input ahead the token is just the next scanned one;
      otherwise the merged span starts at the first invalid token. */
  lemma GatherStart(nfa: Nfa, active: set<TokenType>, c: seq<CodeUnit>, tbl: seq<TokenRef>, b: int)
    requires 0 <= b <= |c| && |tbl| == |c| + 1
    ensures var g := Gather(nfa, active, c, tbl, b, None);
      var s := Scan(nfa, active, c, tbl, b);
      (s.kind != Invalid <==> g == Gathered(None, s)) &&
      (s.kind == Invalid ==> g.invalid.Some? && g.invalid.value.0 == s.begin && s.end <= g.invalid.value.1)
  {
  }

  /** The token that ends a run of invalid input is scanned from the end of the merged span
      (over the table the run left behind). */
  lemma {:induction false} GatherResumes(nfa: Nfa, active: set<TokenType>, c: seq<CodeUnit>, tbl: seq<TokenRef>, b: int,
                                         inv: Option<(int, int)>)
    returns (t: seq<TokenRef>)
    requires 0 <= b <= |c| && |tbl| == |c| + 1
    requires inv.Some? ==> 0 <= inv.value.0 < inv.value.1 <= b
    requires Scan(nfa, active, c, tbl, b).kind == Invalid
    ensures var g := Gather(nfa, active, c, tbl, b, inv);
      |t| == |tbl| && g.invalid.Some? && g.token == Scan(nfa, active, c, t, g.invalid.value.1)
    decreases |c| - b
  {
    var s := Scan(nfa, active, c, tbl, b);
    var inv' := Some(if inv.None? then (s.begin, s.end) else (inv.value.0, s.end));
    var s2 := Scan(nfa, active, c, s.tbl, s.end);
    if s2.kind == Invalid {
      t := GatherResumes(nfa, active, c, s.tbl, s.end, inv');
    } else {
      t := s.tbl;
    }
  }
}
