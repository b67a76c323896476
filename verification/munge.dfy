/**
 * Content normalisation done once when a lexer is built (SNBTLexer.mungeContent):
 * line endings become '\n', tabs optionally become spaces, and a final newline is
 * optionally forced. The Java-unicode-escape branch is not part of this model.
 */
module Munge {
  import opened Text

  /** The character-by-character rewrite of the slow path. A '\r' becomes '\n' (swallowing a
      directly following '\n') unless line endings are preserved; a tab becomes one space
      unless tabs are preserved (the tab width used here is 1, so a tab always expands to
      exactly one space); every other code unit is copied. */
  function Rewrite(s: seq<CodeUnit>, preserveTabs: bool, preserveLines: bool): seq<CodeUnit>
    decreases |s|
  {
    if s == [] then []
    else if s[0] == NL then [NL] + Rewrite(s[1..], preserveTabs, preserveLines)
    else if !preserveLines && s[0] == CR then
      [NL] + Rewrite(if |s| > 1 && s[1] == NL then s[2..] else s[1..], preserveTabs, preserveLines)
    else if s[0] == TAB && !preserveTabs then [SPACE] + Rewrite(s[1..], preserveTabs, preserveLines)
    else [s[0]] + Rewrite(s[1..], preserveTabs, preserveLines)
  }

  /** Appends '\n' unless the text already ends in '\n' or '\r'; the empty text becomes "\n". */
  function EnsureFinalEndline(b: seq<CodeUnit>): seq<CodeUnit>
  {
    if b == [] then [NL]
    else if b[|b| - 1] != NL && b[|b| - 1] != CR then b + [NL]
    else b
  }

  /** What mungeContent returns for the given flags (the escape flag being off). */
  function Munged(s: seq<CodeUnit>, preserveTabs: bool, preserveLines: bool, ensureFinal: bool): seq<CodeUnit>
  {
    var body := if preserveTabs && preserveLines then s else Rewrite(s, preserveTabs, preserveLines);
    if ensureFinal then EnsureFinalEndline(body) else body
  }

  /** The flags the lexer's constructor passes: tabs preserved, line endings normalised,
      no final newline forced. */
  function ConstructorMunge(s: seq<CodeUnit>): seq<CodeUnit>
  {
    Munged(s, true, false, false)
  }

  /** One step of the rewrite, stated at an index of the whole text. */
  lemma RewriteAt(s: seq<CodeUnit>, i: nat, preserveTabs: bool, preserveLines: bool)
    requires i < |s|
    ensures Rewrite(s[i..], preserveTabs, preserveLines) ==
      if s[i] == NL then [NL] + Rewrite(s[i + 1..], preserveTabs, preserveLines)
      else if !preserveLines && s[i] == CR then
        [NL] + Rewrite(if i + 1 < |s| && s[i + 1] == NL then s[i + 2..] else s[i + 1..], preserveTabs, preserveLines)
      else if s[i] == TAB && !preserveTabs then [SPACE] + Rewrite(s[i + 1..], preserveTabs, preserveLines)
      else [s[i]] + Rewrite(s[i + 1..], preserveTabs, preserveLines)
  {
    var rest := s[i..];
    assert rest[0] == s[i];
    assert rest[1..] == s[i + 1..];
    if |rest| > 1 {
      assert rest[1] == s[i + 1];
      assert rest[2..] == s[i + 2..];
    }
  }

  /** Regrouping a concatenation; kept apart so the loop proof below stays small. */
  lemma ConcatAssoc(a: seq<CodeUnit>, b: seq<CodeUnit>, c: seq<CodeUnit>)
    ensures a + (b + c) == (a + b) + c
  {
  }

  /** The body of mungeContent's loop: the code units written for the unit at `index`, and the
      index of the first unit not yet consumed. */
  method RewriteStep(s: seq<CodeUnit>, index: nat, preserveTabs: bool, preserveLines: bool)
    returns (piece: seq<CodeUnit>, next: nat)
    requires index < |s|
    ensures index < next <= |s|
    ensures Rewrite(s[index..], preserveTabs, preserveLines) == piece + Rewrite(s[next..], preserveTabs, preserveLines)
  {
    RewriteAt(s, index, preserveTabs, preserveLines);
    var ch := s[index];
    next := index + 1;
    if ch == NL {
      piece := [ch];
    } else if !preserveLines && ch == CR {
      piece := [NL];
      if next < |s| && s[next] == NL {
        next := next + 1;
      }
    } else if ch == TAB && !preserveTabs {
      piece := [SPACE];
    } else {
      piece := [ch];
    }
  }

  /** mungeContent's final-newline step: append '\n' unless the text already ends a line. */
  method AppendFinalEndline(b: seq<CodeUnit>) returns (r: seq<CodeUnit>)
    ensures r == EnsureFinalEndline(b)
  {
    r := b;
    if |b| == 0 {
      r := [NL];
    } else if b[|b| - 1] != NL && b[|b| - 1] != CR {
      r := b + [NL];
    }
  }

  /** mungeContent's slow path: the loop over the code units, writing each one's rewrite. */
  method RewriteAll(s: seq<CodeUnit>, preserveTabs: bool, preserveLines: bool) returns (buf: seq<CodeUnit>)
    ensures buf == Rewrite(s, preserveTabs, preserveLines)
  {
    buf := [];
    var index := 0;
    while index < |s|
      invariant 0 <= index <= |s|
      invariant buf + Rewrite(s[index..], preserveTabs, preserveLines) == Rewrite(s, preserveTabs, preserveLines)
      decreases |s| - index
    {
      ghost var before := buf;
      var piece, next := RewriteStep(s, index, preserveTabs, preserveLines);
      buf := buf + piece;
      ConcatAssoc(before, piece, Rewrite(s[next..], preserveTabs, preserveLines));
      index := next;
    }
    assert s[index..] == [];
  }

  method MungeContent(s: seq<CodeUnit>, preserveTabs: bool, preserveLines: bool, ensureFinal: bool)
    returns (r: seq<CodeUnit>)
    ensures r == Munged(s, preserveTabs, preserveLines, ensureFinal)
  {
    if preserveTabs && preserveLines {
      r := s;
    } else {
      r := RewriteAll(s, preserveTabs, preserveLines);
    }
    if ensureFinal {
      r := AppendFinalEndline(r);
    }
  }

  /** Number of "\r\n" pairs that the rewrite collapses: a '\r' directly followed by '\n'. */
  function CountCRLF(s: seq<CodeUnit>): nat
    decreases |s|
  {
    if |s| < 2 then 0
    else (if s[0] == CR && s[1] == NL then 1 + CountCRLF(s[2..]) else CountCRLF(s[1..]))
  }

  /** After normalising line endings no '\r' is left. */
  lemma {:induction false} RewriteHasNoCR(s: seq<CodeUnit>, preserveTabs: bool)
    ensures CR !in Rewrite(s, preserveTabs, false)
    decreases |s|
  {
    if s != [] {
      if s[0] == CR && |s| > 1 && s[1] == NL {
        RewriteHasNoCR(s[2..], preserveTabs);
      } else {
        RewriteHasNoCR(s[1..], preserveTabs);
      }
    }
  }

  /** Each "\r\n" pair shrinks by one unit; nothing else changes the length. */
  lemma {:induction false} RewriteLength(s: seq<CodeUnit>, preserveTabs: bool)
    ensures |Rewrite(s, preserveTabs, false)| == |s| - CountCRLF(s)
    ensures CountCRLF(s) <= |s| / 2
    decreases |s|
  {
    if s != [] {
      if s[0] == CR && |s| > 1 && s[1] == NL {
        RewriteLength(s[2..], preserveTabs);
      } else {
        RewriteLength(s[1..], preserveTabs);
        if |s| >= 2 {
          assert CountCRLF(s) == CountCRLF(s[1..]);
        }
      }
    }
  }

  /** Text without '\r' is left exactly as it was (tabs preserved). */
  lemma {:induction false} RewriteKeepsCRFree(s: seq<CodeUnit>)
    requires CR !in s
    ensures Rewrite(s, true, false) == s
    decreases |s|
  {
    if s != [] {
      assert CR !in s[1..];
      RewriteKeepsCRFree(s[1..]);
    }
  }

  /** With both tabs and line endings preserved the slow path would copy its input, so the
      fast path that returns the content unchanged agrees with it. */
  lemma {:induction false} RewriteIdentityWhenPreserving(s: seq<CodeUnit>)
    ensures Rewrite(s, true, true) == s
    decreases |s|
  {
    if s != [] {
      RewriteIdentityWhenPreserving(s[1..]);
    }
  }

  /** The constructor's normalisation: no '\r' survives, the text never grows, and a
      normalised text is a fixed point (normalising twice is normalising once). */
  lemma ConstructorMungeProperties(s: seq<CodeUnit>)
    ensures CR !in ConstructorMunge(s)
    ensures |ConstructorMunge(s)| == |s| - CountCRLF(s) <= |s|
    ensures ConstructorMunge(ConstructorMunge(s)) == ConstructorMunge(s)
    ensures CR !in s ==> ConstructorMunge(s) == s
  {
    RewriteHasNoCR(s, true);
    RewriteLength(s, true);
    RewriteKeepsCRFree(Rewrite(s, true, false));
    if CR !in s {
      RewriteKeepsCRFree(s);
    }
  }

  /** Tab expansion is one space per tab and leaves no tab behind when tabs are not preserved. */
  lemma {:induction false} RewriteExpandsTabs(s: seq<CodeUnit>, preserveLines: bool)
    ensures TAB !in Rewrite(s, false, preserveLines)
    ensures preserveLines ==> |Rewrite(s, false, preserveLines)| == |s|
    decreases |s|
  {
    if s != [] {
      if !preserveLines && s[0] == CR && |s| > 1 && s[1] == NL {
        RewriteExpandsTabs(s[2..], preserveLines);
      } else {
        RewriteExpandsTabs(s[1..], preserveLines);
      }
    }
  }

  /** A forced final newline really ends the text with '\n' or '\r' and keeps the text as a prefix. */
  lemma EnsureFinalEndlineEnds(b: seq<CodeUnit>)
    ensures var r := EnsureFinalEndline(b);
      |r| > 0 && (r[|r| - 1] == NL || r[|r| - 1] == CR) && b <= r && |r| <= |b| + 1
  {
  }
}
