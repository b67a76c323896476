/**
 * Tokens and the lexer's token cache, as values (Token.java and the cache half of
 * SNBTLexer.java). Tokens live in an arena owned by one lexer and are named by their index;
 * the doubly linked "virtual insertion" chain and the offset table hold `TokenRef`s.
 */
module Tokens {
  import opened Text

  /** SNBTConstants.TokenType, in declaration (ordinal) order. */
  datatype TokenType =
    | Eof | Colon | Comma | OpenBracket | CloseBracket | OpenBrace | CloseBrace | Whitespace
    | Boolean | Float | Double | Integer | Long | Byte | Short | StringLit | B | Token17 | I
    | Invalid

  const AllTypes: seq<TokenType> := [Eof, Colon, Comma, OpenBracket, CloseBracket, OpenBrace,
    CloseBrace, Whitespace, Boolean, Float, Double, Integer, Long, Byte, Short, StringLit, B, Token17,
    I, Invalid]

  function Ordinal(t: TokenType): (n: nat)
    ensures n < |AllTypes| && AllTypes[n] == t
  {
    match t
    case Eof => 0 case Colon => 1 case Comma => 2 case OpenBracket => 3 case CloseBracket => 4
    case OpenBrace => 5 case CloseBrace => 6 case Whitespace => 7 case Boolean => 8 case Float => 9
    case Double => 10 case Integer => 11 case Long => 12 case Byte => 13 case Short => 14
    case StringLit => 15 case B => 16 case Token17 => 17 case I => 18 case Invalid => 19
  }

  /** The first type, in ordinal order from index `i` of AllTypes on, that belongs to `types`. */
  function FirstIn(types: set<TokenType>, i: nat): (r: Option<TokenType>)
    requires i <= |AllTypes|
    ensures r.Some? ==> r.value in types && i <= Ordinal(r.value)
    ensures forall u :: u in types && Ordinal(u) >= i ==> r.Some? && Ordinal(r.value) <= Ordinal(u)
    decreases |AllTypes| - i
  {
    if i == |AllTypes| then None
    else if AllTypes[i] in types then Some(AllTypes[i])
    else FirstIn(types, i + 1)
  }

  /** The type with the lowest ordinal in `types`, the one the lexer prefers on a tie. */
  function Lowest(types: set<TokenType>): (r: Option<TokenType>)
    ensures r.None? <==> types == {}
    ensures r.Some? ==> r.value in types && forall u :: u in types ==> Ordinal(r.value) <= Ordinal(u)
  {
    FirstIn(types, 0)
  }

  /** Adding a type to a set: the lowest ordinal is the new type exactly when it is lower than
      the former lowest (the choice made by nextToken's state loop). */
  lemma LowestAdd(types: set<TokenType>, t: TokenType)
    ensures Lowest(types + {t}) ==
      if Lowest(types).None? || Ordinal(t) < Ordinal(Lowest(types).value) then Some(t) else Lowest(types)
  {
    var l := Lowest(types + {t});
    var m := Lowest(types);
    if m.Some? && Ordinal(t) >= Ordinal(m.value) {
      assert Ordinal(l.value) == Ordinal(m.value);
      assert AllTypes[Ordinal(l.value)] == l.value && AllTypes[Ordinal(m.value)] == m.value;
    } else {
      assert Ordinal(l.value) == Ordinal(t);
      assert AllTypes[Ordinal(l.value)] == l.value && AllTypes[Ordinal(t)] == t;
    }
  }

  /** regularTokens: the types that reach the parser. */
  predicate IsRegular(t: TokenType)
  {
    t in {Eof, Colon, Comma, OpenBracket, CloseBracket, OpenBrace, CloseBrace, Boolean, Float, Double,
          Integer, Long, Byte, Short, StringLit, B, Token17, I}
  }

  /** skippedTokens: the types whose matches are dropped. */
  predicate IsSkipped(t: TokenType) { t == Whitespace }

  /** A reference to a token: null, one of the two marker tokens the offset table uses
      (IGNORED, SKIPPED), or a token of the arena. */
  datatype TokenRef = Null | Ignored | Skipped | Tok(id: nat)

  datatype TokenRec = TokenRec(
    kind: TokenType,
    begin: int,
    end: int,
    unparsed: bool,
    image: Option<seq<CodeUnit>>,
    prepended: TokenRef,
    appended: TokenRef,
    inserted: bool)

  /** A fresh token as Token.newToken makes it: no image, no links, not inserted. */
  function NewToken(kind: TokenType, begin: int, end: int): TokenRec
  {
    TokenRec(kind, begin, end, false, None, Null, Null, false)
  }

  /** The lexer's token arena, offset table (tokenLocationTable) and presence bits (tokenOffsets). */
  datatype Store = Store(tokens: seq<TokenRec>, table: seq<TokenRef>, bits: seq<bool>)

  predicate RefIn(r: TokenRef, n: nat) { r.Tok? ==> r.id < n }

  /** Well-formed for content of length `len`: table and bits have one slot per offset plus
      one, every reference names an arena token, offsets lie in the content. */
  predicate WfStore(st: Store, len: nat)
  {
    |st.table| == len + 1 && |st.bits| == len + 1 &&
    (forall i :: 0 <= i < |st.table| ==> RefIn(st.table[i], |st.tokens|)) &&
    (forall k :: 0 <= k < |st.tokens| ==>
      0 <= st.tokens[k].begin <= st.tokens[k].end <= len &&
      RefIn(st.tokens[k].prepended, |st.tokens|) && RefIn(st.tokens[k].appended, |st.tokens|))
  }

  predicate ValidRef(st: Store, r: TokenRef) { RefIn(r, |st.tokens|) }

  /** BitSet.nextSetBit: the least set index at or after `from`, or -1. */
  function NextSetBit(bits: seq<bool>, from: int): (r: int)
    requires 0 <= from
    ensures r == -1 || from <= r < |bits|
    ensures r == -1 <==> forall i :: from <= i < |bits| ==> !bits[i]
    ensures r >= 0 ==> bits[r] && forall i :: from <= i < r ==> !bits[i]
    decreases |bits| - from
  {
    if from >= |bits| then -1
    else if bits[from] then from
    else NextSetBit(bits, from + 1)
  }

  /** BitSet.previousSetBit: the greatest set index at or before `from`, or -1. */
  function PreviousSetBit(bits: seq<bool>, from: int): (r: int)
    requires -1 <= from < |bits|
    ensures -1 <= r <= from
    ensures r == -1 <==> forall i :: 0 <= i <= from ==> !bits[i]
    ensures r >= 0 ==> bits[r] && forall i :: r < i <= from ==> !bits[i]
    decreases from + 1
  {
    if from < 0 then -1
    else if bits[from] then from
    else PreviousSetBit(bits, from - 1)
  }

  /** SNBTLexer.nextCachedToken: the token at the least cached offset at or after `offset`. */
  function LexerNextCached(st: Store, offset: int): (r: TokenRef)
    requires 0 <= offset && |st.table| == |st.bits|
    ensures r != Null ==> exists k :: offset <= k < |st.bits| && st.bits[k] && r == st.table[k]
  {
    var k := NextSetBit(st.bits, offset);
    if k == -1 then Null else st.table[k]
  }

  /** SNBTLexer.previousCachedToken: the token at the greatest cached offset before `offset`. */
  function LexerPreviousCached(st: Store, offset: int): (r: TokenRef)
    requires 0 <= offset <= |st.bits| && |st.table| == |st.bits|
    ensures r != Null ==> exists k :: 0 <= k < offset && st.bits[k] && r == st.table[k]
  {
    var k := PreviousSetBit(st.bits, offset - 1);
    if k == -1 then Null else st.table[k]
  }

  /** nextCachedToken finds the token at the least set offset at or after `offset`, and null
      exactly when no offset from there on is set. */
  lemma LexerNextCachedIsLeast(st: Store, offset: int, k: int)
    requires 0 <= offset && |st.table| == |st.bits|
    ensures (forall i :: offset <= i < |st.bits| ==> !st.bits[i]) ==> LexerNextCached(st, offset) == Null
    ensures offset <= k < |st.bits| && st.bits[k] && (forall i :: offset <= i < k ==> !st.bits[i]) ==>
      LexerNextCached(st, offset) == st.table[k]
  {
    var j := NextSetBit(st.bits, offset);
    if offset <= k < |st.bits| && st.bits[k] && (forall i :: offset <= i < k ==> !st.bits[i]) {
      assert j != -1;
      assert !(j < k) && !(k < j);
    }
  }

  /** previousCachedToken finds the token at the greatest set offset before `offset`, and null
      exactly when no offset before it is set. */
  lemma LexerPreviousCachedIsGreatest(st: Store, offset: int, k: int)
    requires 0 <= offset <= |st.bits| && |st.table| == |st.bits|
    ensures (forall i :: 0 <= i < offset ==> !st.bits[i]) ==> LexerPreviousCached(st, offset) == Null
    ensures 0 <= k < offset && st.bits[k] && (forall i :: k < i < offset ==> !st.bits[i]) ==>
      LexerPreviousCached(st, offset) == st.table[k]
  {
    var j := PreviousSetBit(st.bits, offset - 1);
    if 0 <= k < offset && st.bits[k] && (forall i :: k < i < offset ==> !st.bits[i]) {
      assert j != -1;
      assert !(j < k) && !(k < j);
    }
  }

  /** The type of a reference; the marker tokens have none. */
  function KindOf(st: Store, r: TokenRef): Option<TokenType>
    requires ValidRef(st, r)
  {
    if r.Tok? then Some(st.tokens[r.id].kind) else None
  }

  /** isUnparsed; the marker tokens are unparsed. */
  predicate Unparsed(st: Store, r: TokenRef)
    requires ValidRef(st, r)
  {
    match r
    case Null => false
    case Ignored => true
    case Skipped => true
    case Tok(id) => st.tokens[id].unparsed
  }

  /** Token.nextCachedToken: null after EOF, else the appended link, else the lexer's cache
      from the end offset. The marker tokens have no lexer and no links. */
  function NextOf(st: Store, len: nat, r: TokenRef): (n: TokenRef)
    requires WfStore(st, len) && ValidRef(st, r)
    ensures ValidRef(st, n)
  {
    match r
    case Tok(id) =>
      var t := st.tokens[id];
      if t.kind == Eof then Null
      else if t.appended != Null then t.appended
      else LexerNextCached(st, t.end)
    case _ => Null
  }

  /** Token.previousCachedToken: the prepended link, else the lexer's cache before the begin offset. */
  function PreviousOf(st: Store, len: nat, r: TokenRef): (n: TokenRef)
    requires WfStore(st, len) && ValidRef(st, r)
    ensures ValidRef(st, n)
  {
    match r
    case Tok(id) =>
      var t := st.tokens[id];
      if t.prepended != Null then t.prepended
      else LexerPreviousCached(st, t.begin)
    case _ => Null
  }

  /** The number of steps a walk along the links may take before it must have revisited a
      reference; a walk that would go on longer goes round a cycle, where the source loops forever. */
  function Budget(st: Store): nat { |st.tokens| + 2 }

  /** The outcome of a walk: the reference it stopped at, or Cut when it would not stop. */
  datatype Walked = Reached(r: TokenRef) | Cut

  /** `k` steps forward (or backward) from `r`. */
  function Steps(st: Store, len: nat, r: TokenRef, k: nat, forward: bool): (n: TokenRef)
    requires WfStore(st, len) && ValidRef(st, r)
    ensures ValidRef(st, n)
    decreases k
  {
    if k == 0 || r == Null then r
    else Steps(st, len, if forward then NextOf(st, len, r) else PreviousOf(st, len, r), k - 1, forward)
  }

  /** From `r` on, the first reference that is null or not unparsed, within `fuel` steps. */
  function SkipUnparsed(st: Store, len: nat, r: TokenRef, fuel: nat, forward: bool): Walked
    requires WfStore(st, len) && ValidRef(st, r)
    decreases fuel
  {
    if r == Null || !Unparsed(st, r) then Reached(r)
    else if fuel == 0 then Cut
    else SkipUnparsed(st, len, if forward then NextOf(st, len, r) else PreviousOf(st, len, r), fuel - 1, forward)
  }

  /** Token.getNext: the nearest following token that is not unparsed, or null. */
  function NextParsed(st: Store, len: nat, t: nat): Walked
    requires WfStore(st, len) && t < |st.tokens|
  {
    SkipUnparsed(st, len, NextOf(st, len, Tok(t)), Budget(st), true)
  }

  /** Token.getPrevious: the nearest preceding token that is not unparsed, or null. */
  function PreviousParsed(st: Store, len: nat, t: nat): Walked
    requires WfStore(st, len) && t < |st.tokens|
  {
    SkipUnparsed(st, len, PreviousOf(st, len, Tok(t)), Budget(st), false)
  }

  /** A reference where a walk over unparsed tokens stops. */
  predicate Stops(st: Store, r: TokenRef)
    requires ValidRef(st, r)
  {
    r == Null || !Unparsed(st, r)
  }

  /** Steps 1 .. k-1 from `start` are all non-null unparsed references. */
  predicate UnparsedRun(st: Store, len: nat, start: TokenRef, k: nat, forward: bool)
    requires WfStore(st, len) && ValidRef(st, start)
  {
    forall m :: 1 <= m < k ==> !Stops(st, Steps(st, len, start, m, forward))
  }

  /** A walk that stops, started at the j-th step from `start`, stops at some k-th step
      (j <= k <= j + fuel) that ends a run of unparsed references. */
  lemma {:induction false} SkipUnparsedNearest(st: Store, len: nat, start: TokenRef, r: TokenRef, j: nat, fuel: nat, forward: bool)
    returns (k: nat)
    requires WfStore(st, len) && ValidRef(st, start) && ValidRef(st, r)
    requires j >= 1 && r == Steps(st, len, start, j, forward) && UnparsedRun(st, len, start, j, forward)
    requires SkipUnparsed(st, len, r, fuel, forward).Reached?
    ensures j <= k <= j + fuel && SkipUnparsed(st, len, r, fuel, forward).r == Steps(st, len, start, k, forward)
    ensures Stops(st, Steps(st, len, start, k, forward)) && UnparsedRun(st, len, start, k, forward)
    decreases fuel
  {
    if Stops(st, r) {
      k := j;
    } else {
      var n := if forward then NextOf(st, len, r) else PreviousOf(st, len, r);
      StepsSnoc(st, len, start, j, forward);
      assert UnparsedRun(st, len, start, j + 1, forward);
      k := SkipUnparsedNearest(st, len, start, n, j + 1, fuel - 1, forward);
    }
  }

  lemma {:induction false} StepsSnoc(st: Store, len: nat, r: TokenRef, k: nat, forward: bool)
    requires WfStore(st, len) && ValidRef(st, r)
    requires Steps(st, len, r, k, forward) != Null
    ensures var m := Steps(st, len, r, k, forward);
      Steps(st, len, r, k + 1, forward) == (if forward then NextOf(st, len, m) else PreviousOf(st, len, m))
    decreases k
  {
    if k > 0 {
      assert r != Null;
      var n := if forward then NextOf(st, len, r) else PreviousOf(st, len, r);
      StepsSnoc(st, len, n, k - 1, forward);
    }
  }

  /** getNext / getPrevious return the nearest following / preceding token that is not
      unparsed (or null when the chain ends first). */
  lemma NearestParsed(st: Store, len: nat, t: nat, forward: bool)
    requires WfStore(st, len) && t < |st.tokens|
    ensures var w := if forward then NextParsed(st, len, t) else PreviousParsed(st, len, t);
      w.Reached? ==>
        exists k :: 1 <= k && w.r == Steps(st, len, Tok(t), k, forward) &&
          Stops(st, w.r) && UnparsedRun(st, len, Tok(t), k, forward)
  {
    var first := if forward then NextOf(st, len, Tok(t)) else PreviousOf(st, len, Tok(t));
    assert Steps(st, len, Tok(t), 1, forward) == first;
    var w := if forward then NextParsed(st, len, t) else PreviousParsed(st, len, t);
    if w.Reached? {
      var k := SkipUnparsedNearest(st, len, Tok(t), first, 1, Budget(st), forward);
    }
  }

  /** The unparsed tokens collected walking backwards from `r` (nearest first), or None when
      the walk does not stop within `fuel` steps. */
  function CollectUnparsed(st: Store, len: nat, r: TokenRef, fuel: nat): Option<seq<TokenRef>>
    requires WfStore(st, len) && ValidRef(st, r)
    decreases fuel
  {
    if r == Null || !Unparsed(st, r) then Some([])
    else if fuel == 0 then None
    else
      var rest := CollectUnparsed(st, len, PreviousOf(st, len, r), fuel - 1);
      if rest.None? then None else Some([r] + rest.value)
  }

  function Reverse(s: seq<TokenRef>): (r: seq<TokenRef>)
    ensures |r| == |s| && forall i :: 0 <= i < |s| ==> r[i] == s[|s| - 1 - i]
  {
    if s == [] then [] else Reverse(s[1..]) + [s[0]]
  }

  /** Token.precedingUnparsedTokens: the run of unparsed tokens right before `t`, in input order. */
  function PrecedingUnparsed(st: Store, len: nat, t: nat): Option<seq<TokenRef>>
    requires WfStore(st, len) && t < |st.tokens|
  {
    var c := CollectUnparsed(st, len, PreviousOf(st, len, Tok(t)), Budget(st));
    if c.None? then None else Some(Reverse(c.value))
  }

  /** The collected run is exactly the maximal run of unparsed predecessors: its i-th element
      is i + 1 steps back, all of them are unparsed, and the step after the run is null or parsed. */
  lemma {:induction false} CollectUnparsedRun(st: Store, len: nat, r: TokenRef, fuel: nat)
    requires WfStore(st, len) && ValidRef(st, r)
    ensures var c := CollectUnparsed(st, len, r, fuel);
      c.Some? ==>
        (forall i :: 0 <= i < |c.value| ==>
           (c.value[i] == Steps(st, len, r, i, false) && c.value[i] != Null && Unparsed(st, c.value[i]))) &&
        (Steps(st, len, r, |c.value|, false) == Null || !Unparsed(st, Steps(st, len, r, |c.value|, false)))
    decreases fuel
  {
    if r != Null && Unparsed(st, r) && fuel > 0 {
      var p := PreviousOf(st, len, r);
      CollectUnparsedRun(st, len, p, fuel - 1);
    }
  }

  lemma PrecedingUnparsedIsRun(st: Store, len: nat, t: nat)
    requires WfStore(st, len) && t < |st.tokens|
    ensures var p := PrecedingUnparsed(st, len, t);
      p.Some? ==>
        (forall i :: 0 <= i < |p.value| ==>
           p.value[i] == Steps(st, len, Tok(t), |p.value| - i, false) && p.value[i] != Null && Unparsed(st, p.value[i])) &&
        (Steps(st, len, Tok(t), |p.value| + 1, false) == Null || !Unparsed(st, Steps(st, len, Tok(t), |p.value| + 1, false)))
  {
    var first := PreviousOf(st, len, Tok(t));
    CollectUnparsedRun(st, len, first, Budget(st));
    var c := CollectUnparsed(st, len, first, Budget(st));
    if c.Some? {
      forall i | 0 <= i <= |c.value| ensures Steps(st, len, Tok(t), i + 1, false) == Steps(st, len, first, i, false) {
      }
    }
  }

  /** The begin offset of a reference; the marker tokens are at offset 0. */
  function BeginOf(st: Store, r: TokenRef): int
    requires ValidRef(st, r)
  {
    if r.Tok? then st.tokens[r.id].begin else 0
  }

  predicate Inserted(st: Store, r: TokenRef)
    requires ValidRef(st, r)
  {
    r.Tok? && st.tokens[r.id].inserted
  }

  /** Stores `r` at `offset` and marks the offset present, unless the slot is IGNORED. */
  function Register(st: Store, offset: nat, r: TokenRef): (s: Store)
    requires offset < |st.table| == |st.bits|
    ensures |s.table| == |st.table| && |s.bits| == |st.bits| && s.tokens == st.tokens
  {
    if st.table[offset] == Ignored then st
    else st.(bits := st.bits[offset := true], table := st.table[offset := r])
  }

  /** SNBTLexer.cacheToken: an inserted token hands over to its cached successor (None when that
      chain does not end within `fuel` steps); any other token is registered at its begin offset. */
  function Cache(st: Store, len: nat, r: TokenRef, fuel: nat): (c: Option<Store>)
    requires WfStore(st, len) && ValidRef(st, r) && r != Null
    ensures c.Some? ==> |c.value.table| == |st.table| && |c.value.bits| == |st.bits|
    decreases fuel
  {
    if Inserted(st, r) then
      var n := NextOf(st, len, r);
      if n == Null then Some(st)
      else if fuel == 0 then None
      else Cache(st, len, n, fuel - 1)
    else Some(Register(st, BeginOf(st, r), r))
  }

  /** Caching never touches an IGNORED slot, never changes a token, and changes at most the slot
      of one non-inserted token reached from `r`, which afterwards is the token found there. */
  lemma {:induction false} CacheEffect(st: Store, len: nat, r: TokenRef, fuel: nat)
    requires WfStore(st, len) && ValidRef(st, r) && r != Null
    ensures var c := Cache(st, len, r, fuel);
      c.Some? ==>
        (c.value.tokens == st.tokens && WfStore(c.value, len) &&
         (c.value == st ||
          exists x :: ValidRef(st, x) && x != Null && !Inserted(st, x) && c.value == Register(st, BeginOf(st, x), x) &&
            st.table[BeginOf(st, x)] != Ignored && LexerNextCached(c.value, BeginOf(st, x)) == x))
    decreases fuel
  {
    if Inserted(st, r) {
      var n := NextOf(st, len, r);
      if n != Null && fuel > 0 {
        CacheEffect(st, len, n, fuel - 1);
      }
    } else {
      var b := BeginOf(st, r);
      var c := Register(st, b, r);
      if st.table[b] != Ignored {
        assert NextSetBit(c.bits, b) == b;
      }
    }
  }

  /** `x` is reached from `r` in `n` steps of nextCachedToken, every step leaving an inserted token. */
  ghost predicate InsertedPath(st: Store, len: nat, r: TokenRef, x: TokenRef, n: nat)
    requires WfStore(st, len) && ValidRef(st, r)
    decreases n
  {
    if n == 0 then x == r
    else Inserted(st, r) && NextOf(st, len, r) != Null && InsertedPath(st, len, NextOf(st, len, r), x, n - 1)
  }

  /** A token that is not inserted is cached at its own begin offset, with that offset's presence
      bit set, unless the slot is IGNORED. */
  lemma CacheStoresToken(st: Store, len: nat, r: TokenRef, fuel: nat)
    requires WfStore(st, len) && ValidRef(st, r) && r != Null && !Inserted(st, r)
    ensures st.table[BeginOf(st, r)] != Ignored ==>
      Cache(st, len, r, fuel) == Some(Register(st, BeginOf(st, r), r)) &&
      Cache(st, len, r, fuel).value.table[BeginOf(st, r)] == r &&
      Cache(st, len, r, fuel).value.bits[BeginOf(st, r)] &&
      LexerNextCached(Cache(st, len, r, fuel).value, BeginOf(st, r)) == r
    ensures st.table[BeginOf(st, r)] == Ignored ==> Cache(st, len, r, fuel) == Some(st)
  {
    var b := BeginOf(st, r);
    if st.table[b] != Ignored {
      assert NextSetBit(Register(st, b, r).bits, b) == b;
    }
  }

  /** An inserted token is never cached itself: caching follows nextCachedToken through inserted
      tokens to the first token x that is not inserted and caches x as above, or stops without a
      change when the chain ends in null. */
  lemma {:induction false} CacheFollowsInserted(st: Store, len: nat, r: TokenRef, fuel: nat)
    requires WfStore(st, len) && ValidRef(st, r) && r != Null
    ensures Cache(st, len, r, fuel).Some? ==>
      exists x: TokenRef, n: nat :: n <= fuel && ValidRef(st, x) && x != Null && InsertedPath(st, len, r, x, n) &&
        (if Inserted(st, x) then NextOf(st, len, x) == Null && Cache(st, len, r, fuel).value == st
         else Cache(st, len, r, fuel).value == Register(st, BeginOf(st, x), x))
    decreases fuel
  {
    if Cache(st, len, r, fuel).Some? {
      if Inserted(st, r) {
        var nx := NextOf(st, len, r);
        if nx == Null {
          assert InsertedPath(st, len, r, r, 0);
        } else {
          assert fuel > 0 && Cache(st, len, r, fuel) == Cache(st, len, nx, fuel - 1);
          CacheFollowsInserted(st, len, nx, fuel - 1);
          var x: TokenRef, n: nat :| n <= fuel - 1 && ValidRef(st, x) && x != Null && InsertedPath(st, len, nx, x, n) &&
            (if Inserted(st, x) then NextOf(st, len, x) == Null && Cache(st, len, nx, fuel - 1).value == st
             else Cache(st, len, nx, fuel - 1).value == Register(st, BeginOf(st, x), x));
          assert InsertedPath(st, len, r, x, n + 1);
        }
      } else {
        assert InsertedPath(st, len, r, r, 0);
      }
    }
  }

  /** An IGNORED slot stays IGNORED whatever is cached. */
  lemma CacheKeepsIgnored(st: Store, len: nat, r: TokenRef, fuel: nat)
    requires WfStore(st, len) && ValidRef(st, r) && r != Null
    ensures var c := Cache(st, len, r, fuel);
      c.Some? ==> forall i :: 0 <= i < |st.table| && st.table[i] == Ignored ==> c.value.table[i] == Ignored
  {
    CacheEffect(st, len, r, fuel);
  }

  /** SNBTLexer.uncacheTokens: forget every cached offset at or after the end of `t`, and drop
      `t`'s appended link. */
  function Uncache(st: Store, t: nat): (s: Store)
    requires t < |st.tokens|
    ensures |s.tokens| == |st.tokens| && s.table == st.table && |s.bits| == |st.bits|
  {
    var end := st.tokens[t].end;
    st.(bits := seq(|st.bits|, i requires 0 <= i < |st.bits| => st.bits[i] && i < end),
        tokens := st.tokens[t := st.tokens[t].(appended := Null)])
  }

  /** After uncaching, no token is found at or after `t`'s end, lower offsets are untouched, and
      `t`'s successor is again looked up in the cache. */
  lemma UncacheForgets(st: Store, len: nat, t: nat)
    requires WfStore(st, len) && t < |st.tokens|
    ensures var s := Uncache(st, t);
      WfStore(s, len) &&
      (forall o :: st.tokens[t].end <= o ==> LexerNextCached(s, o) == Null) &&
      (forall i :: 0 <= i < st.tokens[t].end && i < |st.bits| ==> s.bits[i] == st.bits[i]) &&
      (st.tokens[t].kind != Eof ==> NextOf(s, len, Tok(t)) == Null)
  {
    var s := Uncache(st, t);
    forall o | st.tokens[t].end <= o
      ensures LexerNextCached(s, o) == Null
    {
      assert forall i :: o <= i < |s.bits| ==> !s.bits[i];
    }
    if st.tokens[t].kind != Eof {
      assert LexerNextCached(s, s.tokens[t].end) == Null;
    }
  }

  /** Token.preInsert: splice `p` into the chain right before `t`. */
  function PreInsert(st: Store, len: nat, t: nat, p: nat): (r: Store)
    requires WfStore(st, len) && t < |st.tokens| && p < |st.tokens|
    ensures |r.tokens| == |st.tokens| && r.table == st.table && r.bits == st.bits
  {
    if st.tokens[t].prepended == Tok(p) then st
    else
      var s1 := st.(tokens := st.tokens[p := st.tokens[p].(appended := Tok(t))]);
      var prev := PreviousOf(s1, len, Tok(t));
      var s2 := if prev.Tok? then s1.(tokens := s1.tokens[prev.id := s1.tokens[prev.id].(appended := Tok(p))]) else s1;
      var s3 := if prev != Null then s2.(tokens := s2.tokens[p := s2.tokens[p].(prepended := prev)]) else s2;
      var b := s3.tokens[t].begin;
      var s4 := s3.(tokens := s3.tokens[p := s3.tokens[p].(inserted := true, begin := b, end := b)]);
      s4.(tokens := s4.tokens[t := s4.tokens[t].(prepended := Tok(p))])
  }

  /** After t.preInsert(p), p sits between t's former predecessor q and t: the links say so,
      p is an empty inserted token at t's begin, navigation from t goes back to p and from p
      forward to t, and no other token, slot or presence bit changes. */
  lemma PreInsertSplices(st: Store, len: nat, t: nat, p: nat)
    requires WfStore(st, len) && t < |st.tokens| && p < |st.tokens| && p != t
    requires st.tokens[t].prepended != Tok(p) && PreviousOf(st, len, Tok(t)) != Tok(p)
    ensures var r := PreInsert(st, len, t, p);
      r.tokens[p].appended == Tok(t) && r.tokens[t].prepended == Tok(p) &&
      r.tokens[p].inserted && r.tokens[p].begin == r.tokens[p].end == st.tokens[t].begin &&
      r.tokens[p].kind == st.tokens[p].kind
    ensures var r := PreInsert(st, len, t, p);
      var q := PreviousOf(st, len, Tok(t));
      (q != Null ==> r.tokens[p].prepended == q) &&
      (q == Null ==> r.tokens[p].prepended == st.tokens[p].prepended) &&
      (q.Tok? ==> r.tokens[q.id].appended == Tok(p))
    ensures var r := PreInsert(st, len, t, p);
      var q := PreviousOf(st, len, Tok(t));
      WfStore(r, len) && PreviousOf(r, len, Tok(t)) == Tok(p) &&
      (r.tokens[p].kind != Eof ==> NextOf(r, len, Tok(p)) == Tok(t)) &&
      (q != Null ==> PreviousOf(r, len, Tok(p)) == q)
    ensures var r := PreInsert(st, len, t, p);
      var q := PreviousOf(st, len, Tok(t));
      forall i :: 0 <= i < |st.tokens| && i != p && i != t && q != Tok(i) ==> r.tokens[i] == st.tokens[i]
    ensures var q := PreviousOf(st, len, Tok(t));
      q != Tok(t) ==> PreInsert(st, len, t, p).tokens[t] == st.tokens[t].(prepended := Tok(p))
  {
    PreInsertLinks(st, len, t, p);
    PreInsertKeepsWf(st, len, t, p);
    PreInsertNavigation(st, len, t, p);
  }

  /** The records preInsert writes: p's links, flag and offsets, the predecessor's forward link,
      t's backward link; every other record is untouched. */
  lemma PreInsertLinks(st: Store, len: nat, t: nat, p: nat)
    requires WfStore(st, len) && t < |st.tokens| && p < |st.tokens| && p != t
    requires st.tokens[t].prepended != Tok(p) && PreviousOf(st, len, Tok(t)) != Tok(p)
    ensures var r := PreInsert(st, len, t, p);
      var q := PreviousOf(st, len, Tok(t));
      r.tokens[p] == st.tokens[p].(appended := Tok(t), prepended := if q != Null then q else st.tokens[p].prepended,
                                   inserted := true, begin := st.tokens[t].begin, end := st.tokens[t].begin) &&
      r.tokens[t].prepended == Tok(p) &&
      (q != Tok(t) ==> r.tokens[t] == st.tokens[t].(prepended := Tok(p))) &&
      (q.Tok? && q.id != t ==> r.tokens[q.id] == st.tokens[q.id].(appended := Tok(p))) &&
      (forall i :: 0 <= i < |st.tokens| && i != p && i != t && q != Tok(i) ==> r.tokens[i] == st.tokens[i])
  {
    var s1 := st.(tokens := st.tokens[p := st.tokens[p].(appended := Tok(t))]);
    assert PreviousOf(s1, len, Tok(t)) == PreviousOf(st, len, Tok(t));
  }

  /** Navigation after preInsert: back from t reaches p, forward from p reaches t, and back from
      p reaches t's former predecessor. */
  lemma PreInsertNavigation(st: Store, len: nat, t: nat, p: nat)
    requires WfStore(st, len) && t < |st.tokens| && p < |st.tokens| && p != t
    requires st.tokens[t].prepended != Tok(p) && PreviousOf(st, len, Tok(t)) != Tok(p)
    ensures var r := PreInsert(st, len, t, p);
      var q := PreviousOf(st, len, Tok(t));
      WfStore(r, len) && PreviousOf(r, len, Tok(t)) == Tok(p) &&
      (r.tokens[p].kind != Eof ==> NextOf(r, len, Tok(p)) == Tok(t)) &&
      (q != Null ==> PreviousOf(r, len, Tok(p)) == q)
  {
    PreInsertLinks(st, len, t, p);
    PreInsertKeepsWf(st, len, t, p);
  }

  /** Splicing keeps the store well formed. */
  lemma PreInsertKeepsWf(st: Store, len: nat, t: nat, p: nat)
    requires WfStore(st, len) && t < |st.tokens| && p < |st.tokens|
    ensures WfStore(PreInsert(st, len, t, p), len)
  {
    if st.tokens[t].prepended != Tok(p) {
      var s1 := st.(tokens := st.tokens[p := st.tokens[p].(appended := Tok(t))]);
      SlotKeepsWf(st, len, p, s1.tokens[p]);
      var prev := PreviousOf(s1, len, Tok(t));
      var s2 := if prev.Tok? then s1.(tokens := s1.tokens[prev.id := s1.tokens[prev.id].(appended := Tok(p))]) else s1;
      if prev.Tok? { SlotKeepsWf(s1, len, prev.id, s2.tokens[prev.id]); }
      var s3 := if prev != Null then s2.(tokens := s2.tokens[p := s2.tokens[p].(prepended := prev)]) else s2;
      if prev != Null { SlotKeepsWf(s2, len, p, s3.tokens[p]); }
      var b := s3.tokens[t].begin;
      var s4 := s3.(tokens := s3.tokens[p := s3.tokens[p].(inserted := true, begin := b, end := b)]);
      SlotKeepsWf(s3, len, p, s4.tokens[p]);
      SlotKeepsWf(s4, len, t, s4.tokens[t].(prepended := Tok(p)));
    }
  }

  /** Replacing one token by a record whose offsets and links are in range keeps the store well formed. */
  lemma SlotKeepsWf(st: Store, len: nat, k: nat, rec: TokenRec)
    requires WfStore(st, len) && k < |st.tokens|
    requires 0 <= rec.begin <= rec.end <= len && RefIn(rec.prepended, |st.tokens|) && RefIn(rec.appended, |st.tokens|)
    ensures WfStore(st.(tokens := st.tokens[k := rec]), len)
  {
  }

  /** Inserting the same token twice is inserting it once: after the first splice p is
      t's prepended token, and preInsert of the prepended token changes nothing. */
  lemma PreInsertIdempotent(st: Store, len: nat, t: nat, p: nat)
    requires WfStore(st, len) && t < |st.tokens| && p < |st.tokens|
    ensures var r := PreInsert(st, len, t, p);
      WfStore(r, len) && r.tokens[t].prepended == Tok(p) && PreInsert(r, len, t, p) == r
  {
    PreInsertKeepsWf(st, len, t, p);
  }

  /** preInsert as written, when `p` is already t's previous token through the cache: p's
      forward and backward links both end up pointing at p itself, so walking forward from p
      never reaches t. Here p is token 0 cached at offset 0 and t is token 1 cached at 1. */
  lemma PreInsertSelfLoop()
    ensures var st := Store([NewToken(Colon, 0, 1), NewToken(Comma, 1, 2)], [Tok(0), Tok(1), Null], [true, true, false]);
      WfStore(st, 2) && st.tokens[1].prepended != Tok(0) && PreviousOf(st, 2, Tok(1)) == Tok(0) &&
      PreInsert(st, 2, 1, 0).tokens[0].appended == Tok(0) &&
      PreInsert(st, 2, 1, 0).tokens[0].prepended == Tok(0) &&
      NextOf(PreInsert(st, 2, 1, 0), 2, Tok(0)) == Tok(0)
  {
    var st := Store([NewToken(Colon, 0, 1), NewToken(Comma, 1, 2)], [Tok(0), Tok(1), Null], [true, true, false]);
    assert PreviousSetBit(st.bits, 0) == 0;
    var s1 := st.(tokens := st.tokens[0 := st.tokens[0].(appended := Tok(1))]);
    assert PreviousSetBit(s1.bits, 0) == 0;
    assert PreviousOf(s1, 2, Tok(1)) == Tok(0);
  }

  /** preInsert with the splice it evidently intends: when the token found before `t` is `p`
      itself it is not linked to `p`, so `p` never becomes its own neighbour. */
  function PreInsertGuarded(st: Store, len: nat, t: nat, p: nat): (r: Store)
    requires WfStore(st, len) && t < |st.tokens| && p < |st.tokens|
    ensures |r.tokens| == |st.tokens| && r.table == st.table && r.bits == st.bits
  {
    if st.tokens[t].prepended == Tok(p) then st
    else
      var s1 := st.(tokens := st.tokens[p := st.tokens[p].(appended := Tok(t))]);
      SlotKeepsWf(st, len, p, s1.tokens[p]);
      var found := PreviousOf(s1, len, Tok(t));
      Splice(s1, len, t, p, if found == Tok(p) then Null else found)
  }

  /** The rest of the splice once p's forward link is set: link `prev` and `p` to each other,
      make p an empty inserted token at t's begin and t's prepended token. */
  function Splice(s1: Store, len: nat, t: nat, p: nat, prev: TokenRef): (r: Store)
    requires WfStore(s1, len) && t < |s1.tokens| && p < |s1.tokens| && RefIn(prev, |s1.tokens|)
    ensures |r.tokens| == |s1.tokens| && r.table == s1.table && r.bits == s1.bits
  {
    var s2 := if prev.Tok? then s1.(tokens := s1.tokens[prev.id := s1.tokens[prev.id].(appended := Tok(p))]) else s1;
    var s3 := if prev != Null then s2.(tokens := s2.tokens[p := s2.tokens[p].(prepended := prev)]) else s2;
    var b := s3.tokens[t].begin;
    var s4 := s3.(tokens := s3.tokens[p := s3.tokens[p].(inserted := true, begin := b, end := b)]);
    s4.(tokens := s4.tokens[t := s4.tokens[t].(prepended := Tok(p))])
  }

  /** The splice keeps the store well formed, and unless `prev` is p itself it leaves p's
      forward link and type alone and makes p t's prepended token. */
  lemma SpliceLinks(s1: Store, len: nat, t: nat, p: nat, prev: TokenRef)
    requires WfStore(s1, len) && t < |s1.tokens| && p < |s1.tokens| && RefIn(prev, |s1.tokens|) && p != t
    ensures var r := Splice(s1, len, t, p, prev);
      WfStore(r, len) && r.tokens[t].prepended == Tok(p) && r.tokens[p].kind == s1.tokens[p].kind &&
      (prev != Tok(p) ==> r.tokens[p].appended == s1.tokens[p].appended)
  {
    var s2 := if prev.Tok? then s1.(tokens := s1.tokens[prev.id := s1.tokens[prev.id].(appended := Tok(p))]) else s1;
    if prev.Tok? { SlotKeepsWf(s1, len, prev.id, s2.tokens[prev.id]); }
    var s3 := if prev != Null then s2.(tokens := s2.tokens[p := s2.tokens[p].(prepended := prev)]) else s2;
    if prev != Null { SlotKeepsWf(s2, len, p, s3.tokens[p]); }
    var b := s3.tokens[t].begin;
    var s4 := s3.(tokens := s3.tokens[p := s3.tokens[p].(inserted := true, begin := b, end := b)]);
    SlotKeepsWf(s3, len, p, s4.tokens[p]);
    SlotKeepsWf(s4, len, t, s4.tokens[t].(prepended := Tok(p)));
  }

  /** The guarded splice agrees with preInsert whenever t's previous token is not `p`, and on
      every input it links `p` and `t` to each other in both directions: navigating back from
      t reaches p and navigating forward from p (unless p is EOF) reaches t. */
  lemma PreInsertGuardedSplices(st: Store, len: nat, t: nat, p: nat)
    requires WfStore(st, len) && t < |st.tokens| && p < |st.tokens| && p != t
    requires st.tokens[t].prepended != Tok(p)
    ensures PreviousOf(st, len, Tok(t)) != Tok(p) ==> PreInsertGuarded(st, len, t, p) == PreInsert(st, len, t, p)
    ensures WfStore(PreInsertGuarded(st, len, t, p), len) &&
      PreInsertGuarded(st, len, t, p).tokens[p].appended == Tok(t) &&
      PreviousOf(PreInsertGuarded(st, len, t, p), len, Tok(t)) == Tok(p) &&
      (st.tokens[p].kind != Eof ==> NextOf(PreInsertGuarded(st, len, t, p), len, Tok(p)) == Tok(t))
  {
    var s1 := st.(tokens := st.tokens[p := st.tokens[p].(appended := Tok(t))]);
    SlotKeepsWf(st, len, p, s1.tokens[p]);
    var found := PreviousOf(s1, len, Tok(t));
    assert found == PreviousOf(st, len, Tok(t));
    var prev := if found == Tok(p) then Null else found;
    assert PreInsertGuarded(st, len, t, p) == Splice(s1, len, t, p, prev);
    SpliceLinks(s1, len, t, p, prev);
    if found != Tok(p) {
      assert PreInsert(st, len, t, p) == Splice(s1, len, t, p, found);
    }
  }

  /** Token.replaceType: a new token of type `kind` with t's offsets, links and inserted flag;
      both neighbours are re-linked to it and, unless it is inserted, it is cached. The new
      token is the last of the arena. */
  function ReplaceType(st: Store, len: nat, t: nat, kind: TokenType): (r: Store)
    requires WfStore(st, len) && t < |st.tokens|
    ensures |r.tokens| == |st.tokens| + 1 && |r.table| == |st.table| && |r.bits| == |st.bits|
  {
    var o := st.tokens[t];
    var n := |st.tokens|;
    var rec := NewToken(kind, o.begin, o.end).(prepended := o.prepended, appended := o.appended, inserted := o.inserted);
    var s1 := st.(tokens := st.tokens + [rec]);
    var s2 := if o.appended.Tok? then s1.(tokens := s1.tokens[o.appended.id := s1.tokens[o.appended.id].(prepended := Tok(n))]) else s1;
    var s3 := if o.prepended.Tok? then s2.(tokens := s2.tokens[o.prepended.id := s2.tokens[o.prepended.id].(appended := Tok(n))]) else s2;
    if o.inserted then s3 else Register(s3, o.begin, Tok(n))
  }

  /** replaceType makes a token with the new type and the old offsets, links and inserted flag,
      re-links both neighbours to it, registers it in the cache exactly when it is not inserted
      (and its slot is not IGNORED), and leaves the old token as it was unless it is its own
      neighbour. */
  lemma ReplaceTypeEffect(st: Store, len: nat, t: nat, kind: TokenType)
    requires WfStore(st, len) && t < |st.tokens|
    ensures var r := ReplaceType(st, len, t, kind);
      var o := st.tokens[t];
      var n := |st.tokens|;
      WfStore(r, len) &&
      r.tokens[n].kind == kind && r.tokens[n].begin == o.begin && r.tokens[n].end == o.end &&
      r.tokens[n].inserted == o.inserted && !r.tokens[n].unparsed && r.tokens[n].image.None?
    ensures var r := ReplaceType(st, len, t, kind);
      var o := st.tokens[t];
      var n := |st.tokens|;
      (o.appended.Tok? ==> r.tokens[o.appended.id].prepended == Tok(n)) &&
      (o.prepended.Tok? ==> r.tokens[o.prepended.id].appended == Tok(n)) &&
      r.tokens[n].prepended == o.prepended && r.tokens[n].appended == o.appended &&
      (o.prepended != Tok(t) && o.appended != Tok(t) ==> r.tokens[t] == st.tokens[t])
    ensures var r := ReplaceType(st, len, t, kind);
      var o := st.tokens[t];
      var n := |st.tokens|;
      (o.inserted ==> r.table == st.table && r.bits == st.bits) &&
      (!o.inserted && st.table[o.begin] != Ignored ==>
        r.table == st.table[o.begin := Tok(n)] && r.bits == st.bits[o.begin := true] &&
        LexerNextCached(r, o.begin) == Tok(n)) &&
      (!o.inserted && st.table[o.begin] == Ignored ==> r.table == st.table && r.bits == st.bits)
    ensures var r := ReplaceType(st, len, t, kind);
      var o := st.tokens[t];
      forall i :: 0 <= i < |st.tokens| && o.prepended != Tok(i) && o.appended != Tok(i) ==> r.tokens[i] == st.tokens[i]
  {
    ReplaceTypeTokens(st, len, t, kind);
    ReplaceTypeCache(st, len, t, kind);
  }

  /** The token records after replaceType: the new record, its neighbours' links, and no other change. */
  lemma ReplaceTypeTokens(st: Store, len: nat, t: nat, kind: TokenType)
    requires WfStore(st, len) && t < |st.tokens|
    ensures var r := ReplaceType(st, len, t, kind);
      var o := st.tokens[t];
      var n := |st.tokens|;
      r.tokens[n].kind == kind && r.tokens[n].begin == o.begin && r.tokens[n].end == o.end &&
      r.tokens[n].inserted == o.inserted && !r.tokens[n].unparsed && r.tokens[n].image.None? &&
      r.tokens[n].prepended == o.prepended && r.tokens[n].appended == o.appended &&
      (forall i :: 0 <= i <= n ==>
        (RefIn(r.tokens[i].prepended, n + 1) && RefIn(r.tokens[i].appended, n + 1) &&
         r.tokens[i].begin == (if i == n then o.begin else st.tokens[i].begin) &&
         r.tokens[i].end == (if i == n then o.end else st.tokens[i].end))) &&
      (o.appended.Tok? ==> r.tokens[o.appended.id].prepended == Tok(n)) &&
      (o.prepended.Tok? ==> r.tokens[o.prepended.id].appended == Tok(n)) &&
      (forall i :: 0 <= i < n && o.prepended != Tok(i) && o.appended != Tok(i) ==> r.tokens[i] == st.tokens[i])
  {
  }

  /** The cache after replaceType: the new token is registered at its begin offset unless it is
      inserted or that slot is IGNORED; the table stays in range. */
  lemma ReplaceTypeCache(st: Store, len: nat, t: nat, kind: TokenType)
    requires WfStore(st, len) && t < |st.tokens|
    ensures var r := ReplaceType(st, len, t, kind);
      var o := st.tokens[t];
      var n := |st.tokens|;
      (forall i :: 0 <= i < |r.table| ==> RefIn(r.table[i], n + 1)) &&
      (o.inserted ==> r.table == st.table && r.bits == st.bits) &&
      (!o.inserted && st.table[o.begin] != Ignored ==>
        r.table == st.table[o.begin := Tok(n)] && r.bits == st.bits[o.begin := true] &&
        LexerNextCached(r, o.begin) == Tok(n)) &&
      (!o.inserted && st.table[o.begin] == Ignored ==> r.table == st.table && r.bits == st.bits)
  {
    var o := st.tokens[t];
    var r := ReplaceType(st, len, t, kind);
    if !o.inserted && st.table[o.begin] != Ignored {
      assert NextSetBit(r.bits, o.begin) == o.begin;
    }
  }

  /** SNBTLexer.getText: the code units of [a, b) whose slots are not IGNORED, in order. */
  function TextOf(c: seq<CodeUnit>, tbl: seq<TokenRef>, a: int, b: int): (r: seq<CodeUnit>)
    requires 0 <= a && b <= |c| <= |tbl|
    ensures |r| <= (if a < b then b - a else 0)
    decreases b - a
  {
    if a >= b then []
    else (if tbl[a] != Ignored then [c[a]] else []) + TextOf(c, tbl, a + 1, b)
  }

  /** getText is the plain substring exactly when no slot of the span is IGNORED; otherwise it
      is strictly shorter. */
  lemma {:induction false} TextOfSubstring(c: seq<CodeUnit>, tbl: seq<TokenRef>, a: int, b: int)
    requires 0 <= a <= b <= |c| <= |tbl|
    ensures (forall i :: a <= i < b ==> tbl[i] != Ignored) <==> TextOf(c, tbl, a, b) == c[a..b]
    ensures (exists i :: a <= i < b && tbl[i] == Ignored) ==> |TextOf(c, tbl, a, b)| < b - a
    decreases b - a
  {
    if a < b {
      TextOfSubstring(c, tbl, a + 1, b);
      assert c[a..b] == [c[a]] + c[a + 1..b];
      if tbl[a] == Ignored {
        assert |TextOf(c, tbl, a, b)| < b - a;
      }
    }
  }

  /** Token.isVirtual. */
  predicate IsVirtual(st: Store, t: nat)
    requires t < |st.tokens|
  {
    st.tokens[t].kind == Eof
  }

  /** Token.getSource: empty for EOF, otherwise the lexer's text of the token's span. */
  function Source(st: Store, c: seq<CodeUnit>, t: nat): seq<CodeUnit>
    requires WfStore(st, |c|) && t < |st.tokens|
  {
    if st.tokens[t].kind == Eof then []
    else TextOf(c, st.table, st.tokens[t].begin, st.tokens[t].end)
  }

  /** Token.getImage: the explicit image when one is set, else the source text. */
  function Image(st: Store, c: seq<CodeUnit>, t: nat): seq<CodeUnit>
    requires WfStore(st, |c|) && t < |st.tokens|
  {
    if st.tokens[t].image.Some? then st.tokens[t].image.value else Source(st, c, t)
  }

  /** A virtual token has no source text; any other token without an explicit image shows
      exactly the input it spans, when none of it is IGNORED. */
  lemma ImageOfToken(st: Store, c: seq<CodeUnit>, t: nat)
    requires WfStore(st, |c|) && t < |st.tokens|
    ensures IsVirtual(st, t) ==> Source(st, c, t) == []
    ensures var k := st.tokens[t];
      !IsVirtual(st, t) && k.image.None? && (forall i :: k.begin <= i < k.end ==> st.table[i] != Ignored) ==>
        Image(st, c, t) == c[k.begin..k.end]
    ensures st.tokens[t].image.Some? ==> Image(st, c, t) == st.tokens[t].image.value
  {
    var k := st.tokens[t];
    TextOfSubstring(c, st.table, k.begin, k.end);
  }
}
