# SNBT lexer core, modelled in Dafny

This project models the lexer that reads stringified NBT (SNBT) text, together with the token
chain it produces and the generic parse-tree node those tokens hang from. Content is a sequence
of UTF-16 code units (`Text.CodeUnit`, 0..0xFFFF).

- `text.dfy` (module `Text`): code units, surrogates, newline counting.
- `munge.dfy` (module `Munge`): `mungeContent`, the content normalisation done when a lexer is
  built (CR/CRLF to LF, optional tab expansion, optional final newline).
- `lines.dfy` (module `Lines`): the line-offset table built by `createLineOffsetsTable`, the
  lines flagged as needing a column walk (tabs, surrogates), `getLineFromOffset` and
  `getCodePointColumnFromOffset`.
- `tokens.dfy` (module `Tokens`): the token types in ordinal order, the token arena with its
  offset table (`tokenLocationTable`) and presence bits (`tokenOffsets`), the
  `nextCachedToken`/`previousCachedToken` lookups, `getNext`/`getPrevious`,
  `precedingUnparsedTokens`, `cacheToken`, `uncacheTokens`, `preInsert`, `replaceType`,
  `getText`, `getSource`/`getImage`.
- `scan.dfy` (module `Scanner`): the cursor that steps over IGNORED offsets, `readChar`, the
  maximal-munch NFA driver of `nextToken`, the marking of skipped input and the merging of
  invalid input done by `getNextToken()`. The per-state transition functions are a parameter
  (`Nfa`).
- `lexer.dfy` (module `Lexer`): the lexer itself as a class with the fields the source updates
  in place (cursor, offset table, presence bits, token arena, active token types, lexical state);
  each method is proved equal to the functions above.
- `node.dfy` (module `Tree`): `BaseNode` and the leaf behaviour of tokens, as a `Forest` class
  holding an arena of nodes. Child lists, parent links, named children, named child lists and
  the memoised token source are all modelled.

Tokens and tree nodes are named by their index in an arena, so a Java reference becomes a
`TokenRef` (`Null`, the two marker tokens `Ignored` and `Skipped`, or `Tok(id)`) or a node index.

## Model

| member | source | states |
|---|---|---|
| Munge.MungeContent | src/main/java/cn/nukkit/nbt/snbt/SNBTLexer.java:520-597 | the loop returns exactly `Munged(s, ...)`: the fast path when tabs and line endings are both kept, otherwise the character-by-character rewrite, then the optional final newline |
| Munge.RewriteStep | src/main/java/cn/nukkit/nbt/snbt/SNBTLexer.java:544-586 | one turn of the loop writes exactly the rewrite of the unit it consumes and moves past it (two units for a `\r\n` pair) |
| Munge.RewriteAll | src/main/java/cn/nukkit/nbt/snbt/SNBTLexer.java:538-587 | the slow path's loop builds exactly `Rewrite(s, ...)` |
| Munge.AppendFinalEndline | src/main/java/cn/nukkit/nbt/snbt/SNBTLexer.java:588-595 | the final-newline step returns `EnsureFinalEndline(b)`: "\n" for empty text, otherwise a '\n' appended unless the text already ends in '\n' or '\r' |
| Munge.RewriteHasNoCR | src/main/java/cn/nukkit/nbt/snbt/SNBTLexer.java:571-578 | normalising line endings leaves no '\r' |
| Munge.RewriteLength | src/main/java/cn/nukkit/nbt/snbt/SNBTLexer.java:571-578 | the rewrite shortens the text by exactly the number of "\r\n" pairs |
| Munge.RewriteKeepsCRFree | src/main/java/cn/nukkit/nbt/snbt/SNBTLexer.java:567-590 | text without '\r' is unchanged by the constructor's rewrite |
| Munge.RewriteIdentityWhenPreserving | src/main/java/cn/nukkit/nbt/snbt/SNBTLexer.java:521-536 | the fast path agrees with the slow path it short-cuts: with tabs and line endings kept the rewrite is the identity |
| Munge.ConstructorMungeProperties | src/main/java/cn/nukkit/nbt/snbt/SNBTLexer.java:124 | the constructor's normalisation removes every '\r', never grows the text, is idempotent, and is the identity on CR-free text |
| Munge.RewriteExpandsTabs | src/main/java/cn/nukkit/nbt/snbt/SNBTLexer.java:579-584 | with tabs not kept no tab survives, and with line endings kept the length is unchanged (one space per tab, the default tab size being 1) |
| Munge.EnsureFinalEndlineEnds | src/main/java/cn/nukkit/nbt/snbt/SNBTLexer.java:589-596 | the forced final newline leaves text ending in '\n' or '\r', extends the old text, and adds at most one unit |
| Lines.CreateLineOffsetsTable | src/main/java/cn/nukkit/nbt/snbt/SNBTLexer.java:486-516 | the table built is `LineStarts(c)` and the flagged set is `FlaggedLines(c)` |
| Lines.CountLines | src/main/java/cn/nukkit/nbt/snbt/SNBTLexer.java:491-504 | the first pass counts the lines of the table and flags the lines holding a tab or a high surrogate |
| Lines.FillLineStarts | src/main/java/cn/nukkit/nbt/snbt/SNBTLexer.java:505-514 | the second pass fills the array with exactly `LineStarts(c)`, skipping a final '\n' |
| Lines.LineStartsTable | src/main/java/cn/nukkit/nbt/snbt/SNBTLexer.java:486-516 | the line table starts at 0, is strictly increasing, each later entry follows a '\n', no entry is the end of the text, and its length is the number of '\n' plus one unless the text ends in '\n' |
| Lines.LineStartsIncreasing | src/main/java/cn/nukkit/nbt/snbt/SNBTLexer.java:505-514 | the line table is strictly increasing, as binary search needs |
| Lines.FlaggedLinesExact | src/main/java/cn/nukkit/nbt/snbt/SNBTLexer.java:493-498 | a line is flagged exactly when it holds a tab or a high surrogate |
| Lines.Floor | src/main/java/cn/nukkit/nbt/snbt/SNBTLexer.java:402-406 | the greatest index whose entry is at most the offset, or -1 |
| Lines.LineOfOffset | src/main/java/cn/nukkit/nbt/snbt/SNBTLexer.java:395-407 | the 0-based line of an offset inside the content is the number of '\n' before it |
| Lines.BinarySearch | src/main/java/cn/nukkit/nbt/snbt/SNBTLexer.java:402 | `Arrays.binarySearch`: the index of the key, or minus one minus the insertion point |
| Lines.LineFromOffsetIsFloor | src/main/java/cn/nukkit/nbt/snbt/SNBTLexer.java:395-407 | inside the content `getLineFromOffset` is startingLine plus the index of the last line start at or before the offset, never below 1 |
| Lines.LineFromOffsetMonotone | src/main/java/cn/nukkit/nbt/snbt/SNBTLexer.java:395-407 | the line never decreases as the offset grows |
| Lines.JavaRem | src/main/java/cn/nukkit/nbt/snbt/SNBTLexer.java:429 | Java's `%`: below the divisor in magnitude, and Euclidean on non-negative operands |
| Lines.WalkAtLeast | src/main/java/cn/nukkit/nbt/snbt/SNBTLexer.java:425-435 | every code unit walked over advances the column |
| Lines.WalkLinear | src/main/java/cn/nukkit/nbt/snbt/SNBTLexer.java:418-421 | without tabs or surrogates the walk is one column per unit, so the unflagged shortcut is exact |
| Lines.TabStop | src/main/java/cn/nukkit/nbt/snbt/SNBTLexer.java:428-429 | a tab moves the column to the next tab stop: one more than a multiple of tabSize, strictly right, at most tabSize columns |
| Lines.WalkCountsCodePoints | src/main/java/cn/nukkit/nbt/snbt/SNBTLexer.java:425-437 | on a tab-free stretch whose high surrogates each start a pair, the walk advances one column per code point: the code units less one per pair |
| Lines.ColumnAtEnds | src/main/java/cn/nukkit/nbt/snbt/SNBTLexer.java:413-415 | for content of any length, offset 0 reports startingColumn (1 when the content is empty) and every offset at or past the end reports column 1 |
| Lines.ColumnAtLineStarts | src/main/java/cn/nukkit/nbt/snbt/SNBTLexer.java:416-419 | the start of every line after the first reports column 1 |
| Lines.ColumnWithoutTabs | src/main/java/cn/nukkit/nbt/snbt/SNBTLexer.java:416-437 | when no tab or high surrogate lies between the line start and the offset, and the offset is not a low surrogate, the column is the distance from the line start plus the adjustment whether or not the line is flagged: the walk over a flagged line agrees with the shortcut |
| Lines.ColumnOnUnflaggedLine | src/main/java/cn/nukkit/nbt/snbt/SNBTLexer.java:416-421 | on a line with no tab and no high surrogate the column is the offset less the line start plus the adjustment (startingColumn on the first line, 1 after), whatever the unit at the offset |
| Lines.LowSurrogateSameColumn | src/main/java/cn/nukkit/nbt/snbt/SNBTLexer.java:423-424 | the low half of a surrogate pair reports the column of its high half |
| Lines.ColumnAsWrittenAgrees | src/main/java/cn/nukkit/nbt/snbt/SNBTLexer.java:413-438 | for startingLine >= 1 the source's column equals the intended `Column` |
| Lines.ColumnPositive | src/main/java/cn/nukkit/nbt/snbt/SNBTLexer.java:413-438 | with startingColumn >= 1 every column is at least 1 |
| Lines.ColumnAsWrittenClampMismatch | src/main/java/cn/nukkit/nbt/snbt/SNBTLexer.java:403-406 | on "a\nb" with startingLine 0 the source reports column 0 at offset 1, where the intended column is 2 |
| Tokens.Ordinal | src/main/java/cn/nukkit/nbt/snbt/SNBTLexer.java:261 | `TokenType.ordinal()` is the position of the type in declaration order |
| Tokens.Lowest | src/main/java/cn/nukkit/nbt/snbt/SNBTLexer.java:258-264 | the tie-break of the state loop: None exactly for no type, otherwise a member of lowest ordinal |
| Tokens.LowestAdd | src/main/java/cn/nukkit/nbt/snbt/SNBTLexer.java:261-263 | keeping the lower-ordinal type one state at a time yields the lowest of all reported types |
| Tokens.NextSetBit | src/main/java/cn/nukkit/nbt/snbt/SNBTLexer.java:476-479 | `BitSet.nextSetBit`: the least set index at or after the start, -1 exactly when there is none |
| Tokens.PreviousSetBit | src/main/java/cn/nukkit/nbt/snbt/SNBTLexer.java:481-484 | `BitSet.previousSetBit`: the greatest set index at or before the start, -1 exactly when there is none |
| Tokens.LexerNextCached | src/main/java/cn/nukkit/nbt/snbt/SNBTLexer.java:476-479 | a token found is the one cached at some set offset at or after the given one |
| Tokens.LexerNextCachedIsLeast | src/main/java/cn/nukkit/nbt/snbt/SNBTLexer.java:476-479 | the token found is the table entry at the least set offset at or after the given one, and null when no offset from there on is set |
| Tokens.LexerPreviousCached | src/main/java/cn/nukkit/nbt/snbt/SNBTLexer.java:481-484 | a token found is the one cached at some set offset before the given one |
| Tokens.LexerPreviousCachedIsGreatest | src/main/java/cn/nukkit/nbt/snbt/SNBTLexer.java:481-484 | the token found is the table entry at the greatest set offset before the given one, and null when no offset before it is set |
| Tokens.NextOf | src/main/java/cn/nukkit/nbt/snbt/Token.java:191-196 | `Token.nextCachedToken` yields null, a marker or a token of the arena, never a dangling reference |
| Tokens.PreviousOf | src/main/java/cn/nukkit/nbt/snbt/Token.java:198-202 | `Token.previousCachedToken` yields null, a marker or a token of the arena, never a dangling reference |
| Tokens.NearestParsed | src/main/java/cn/nukkit/nbt/snbt/Token.java:161-186 | `getNext`/`getPrevious` return the nearest following/preceding reference that is null or not unparsed, every step before it being unparsed |
| Tokens.SkipUnparsedNearest | src/main/java/cn/nukkit/nbt/snbt/Token.java:180-186 | the skipping loop stops at the first stopping reference along the chain |
| Tokens.Reverse | src/main/java/cn/nukkit/nbt/snbt/Token.java:300 | `Collections.reverse`: same length, elements in the opposite order |
| Tokens.CollectUnparsedRun | src/main/java/cn/nukkit/nbt/snbt/Token.java:293-302 | the collected list is exactly the maximal run of unparsed predecessors, nearest first |
| Tokens.PrecedingUnparsedIsRun | src/main/java/cn/nukkit/nbt/snbt/Token.java:293-302 | `precedingUnparsedTokens` lists the unparsed tokens right before the token in input order, ending with its immediate predecessor |
| Tokens.Register | src/main/java/cn/nukkit/nbt/snbt/SNBTLexer.java:462-465 | caching at an offset keeps the arena and the sizes of table and bits |
| Tokens.Cache | src/main/java/cn/nukkit/nbt/snbt/SNBTLexer.java:454-466 | `cacheToken` keeps the sizes of table and bits |
| Tokens.CacheEffect | src/main/java/cn/nukkit/nbt/snbt/SNBTLexer.java:454-466 | caching keeps the store well formed, never changes a token, writes at most the slot at the begin offset of a non-inserted token, never an IGNORED one, and a token written there is found again by `nextCachedToken` |
| Tokens.CacheStoresToken | src/main/java/cn/nukkit/nbt/snbt/SNBTLexer.java:461-465 | a token that is not inserted lands at its own begin offset with that offset's bit set and is found there again by `nextCachedToken`; on an IGNORED slot nothing changes |
| Tokens.CacheFollowsInserted | src/main/java/cn/nukkit/nbt/snbt/SNBTLexer.java:455-460 | an inserted token is never cached itself: caching walks `nextCachedToken` through inserted tokens only, within the fuel, and caches the first non-inserted token reached, or changes nothing when the chain ends in null |
| Tokens.CacheKeepsIgnored | src/main/java/cn/nukkit/nbt/snbt/SNBTLexer.java:462 | an IGNORED slot stays IGNORED whatever is cached |
| Tokens.Uncache | src/main/java/cn/nukkit/nbt/snbt/SNBTLexer.java:468-474 | `uncacheTokens` keeps the table and the sizes |
| Tokens.UncacheForgets | src/main/java/cn/nukkit/nbt/snbt/SNBTLexer.java:468-474 | after uncaching nothing is found at or beyond the token's end, lower offsets are untouched, and the token's successor is looked up afresh |
| Tokens.PreInsert | src/main/java/cn/nukkit/nbt/snbt/Token.java:32-43 | `preInsert` changes only token links and fields, never the cache |
| Tokens.PreInsertSplices | src/main/java/cn/nukkit/nbt/snbt/Token.java:32-43 | after `t.preInsert(p)`, `p` sits between t's former predecessor and `t` in both link directions, as an empty inserted token at t's begin offset |
| Tokens.PreInsertKeepsWf | src/main/java/cn/nukkit/nbt/snbt/Token.java:32-43 | splicing keeps the store well formed |
| Tokens.PreInsertIdempotent | src/main/java/cn/nukkit/nbt/snbt/Token.java:33 | inserting the token that already precedes `t` changes nothing |
| Tokens.PreInsertSelfLoop | src/main/java/cn/nukkit/nbt/snbt/Token.java:32-43 | with p cached just before t and not t's prepended token, preInsert as written points p's forward and backward links at p itself, so navigation forward from p stays at p |
| Tokens.PreInsertGuarded | src/main/java/cn/nukkit/nbt/snbt/Token.java:32-43 | the splice with the found previous token ignored when it is p; tokens only, the cache is unchanged |
| Tokens.SpliceLinks | src/main/java/cn/nukkit/nbt/snbt/Token.java:36-42 | the splice keeps the store well formed, makes p t's prepended token and keeps p's forward link and type |
| Tokens.PreInsertGuardedSplices | src/main/java/cn/nukkit/nbt/snbt/Token.java:32-43 | the guarded splice equals preInsert whenever t's previous token is not p, and on every input links p forward to t and t back to p |
| Tokens.ReplaceType | src/main/java/cn/nukkit/nbt/snbt/Token.java:208-223 | `replaceType` adds exactly one token and keeps table and bit sizes |
| Tokens.ReplaceTypeEffect | src/main/java/cn/nukkit/nbt/snbt/Token.java:208-223 | the new token has the new type and the old offsets, links and inserted flag; the neighbours link to it; the old token is unchanged unless it is its own neighbour; unless inserted it is cached at its offset; the store stays well formed |
| Tokens.TextOf | src/main/java/cn/nukkit/nbt/snbt/SNBTLexer.java:444-452 | `getText` is never longer than the span |
| Tokens.TextOfSubstring | src/main/java/cn/nukkit/nbt/snbt/SNBTLexer.java:444-452 | `getText` is the plain substring exactly when no offset of the span is IGNORED, and strictly shorter otherwise |
| Tokens.ImageOfToken | src/main/java/cn/nukkit/nbt/snbt/Token.java:129-155 | a virtual (EOF) token has empty source; an explicit image wins; otherwise the image is the input the token spans when none of it is IGNORED |
| Scanner.SkipIgnored | src/main/java/cn/nukkit/nbt/snbt/SNBTLexer.java:328-333 | the first offset at or after the start that is not IGNORED, or the end of the content |
| Scanner.Read | src/main/java/cn/nukkit/nbt/snbt/SNBTLexer.java:335-351 | `readChar` yields -1 only at the end, else a code point, advancing by its width past the skipped IGNORED offsets |
| Scanner.ReadSpec | src/main/java/cn/nukkit/nbt/snbt/SNBTLexer.java:335-351 | -1 exactly when only IGNORED offsets remain; a surrogate pair is read as one code point of two units |
| Scanner.SuccessorsAdd | src/main/java/cn/nukkit/nbt/snbt/SNBTLexer.java:258-265 | adding one live state adds its successors and its reported type |
| Scanner.Feed | src/main/java/cn/nukkit/nbt/snbt/SNBTLexer.java:242-275 | one pass of the NFA loop reads one code point and counts its units |
| Scanner.RunNfa | src/main/java/cn/nukkit/nbt/snbt/SNBTLexer.java:239-276 | the NFA loop only moves forward and keeps a match once found |
| Scanner.Attempt | src/main/java/cn/nukkit/nbt/snbt/SNBTLexer.java:223-283 | one outer pass moves the cursor forward (EOF at the end excepted); with no match it moves exactly one code point |
| Scanner.MarkSkipped | src/main/java/cn/nukkit/nbt/snbt/SNBTLexer.java:284-288 | marking skipped input keeps the table size |
| Scanner.Scan | src/main/java/cn/nukkit/nbt/snbt/SNBTLexer.java:218-295 | `nextToken` yields an invalid or regular token, non-empty unless EOF at the end, one code point long when invalid |
| Scanner.Gather | src/main/java/cn/nukkit/nbt/snbt/SNBTLexer.java:162-172 | the merged invalid span comes before the regular token that ends the run |
| Scanner.TraceIncreasing | src/main/java/cn/nukkit/nbt/snbt/SNBTLexer.java:266-268 | the code units read grow at every step of the NFA loop |
| Scanner.LastMatch | src/main/java/cn/nukkit/nbt/snbt/SNBTLexer.java:269-273 | the last step that matched |
| Scanner.RunNfaKeepsLastMatch | src/main/java/cn/nukkit/nbt/snbt/SNBTLexer.java:269-276 | the loop ends with the type and unit count of the last step that matched |
| Scanner.RunNfaExactWithoutIgnored | src/main/java/cn/nukkit/nbt/snbt/SNBTLexer.java:242-276 | with no IGNORED offset ahead each code point read takes exactly its own units |
| Scanner.MaximalMunch | src/main/java/cn/nukkit/nbt/snbt/SNBTLexer.java:278-283 | the token is the longest match, of the lowest-ordinal type chosen at its last matching step; with no IGNORED offset ahead the cursor is rewound to exactly its end |
| Scanner.MunchChoice | src/main/java/cn/nukkit/nbt/snbt/SNBTLexer.java:276-283 | an attempt fails exactly when no step of the run matched; otherwise its type is the one reported at the last matching step and the cursor is rewound by the units read past that step |
| Scanner.LastMatchLongest | src/main/java/cn/nukkit/nbt/snbt/SNBTLexer.java:269-276 | because unit counts grow step by step, the last matching step is the longest match |
| Scanner.ScanAtEnd | src/main/java/cn/nukkit/nbt/snbt/SNBTLexer.java:233-236 | with only IGNORED offsets left `nextToken` yields EOF |
| Scanner.ScanTable | src/main/java/cn/nukkit/nbt/snbt/SNBTLexer.java:284-288 | scanning only turns slots into SKIPPED and never touches an IGNORED slot |
| Scanner.GatherTable | src/main/java/cn/nukkit/nbt/snbt/SNBTLexer.java:162-172 | the scans of `getNextToken()` only turn slots into SKIPPED and never touch an IGNORED slot |
| Scanner.GatherStart | src/main/java/cn/nukkit/nbt/snbt/SNBTLexer.java:162-172 | with no invalid input first, the token is the next scanned one |
| Scanner.GatherResumes | src/main/java/cn/nukkit/nbt/snbt/SNBTLexer.java:163-172 | the token that ends a run of invalid input is scanned from the end of the merged span |
| Lexer.Masked | src/main/java/cn/nukkit/nbt/snbt/SNBTLexer.java:361-374 | the table keeps its size |
| Lexer.MaskedEffect | src/main/java/cn/nukkit/nbt/snbt/SNBTLexer.java:361-390 | `setParsedLines` makes IGNORED exactly the offsets of the turned-off lines, keeps every other slot, and applying it twice is applying it once |
| Lexer.MaskedBelowStep | src/main/java/cn/nukkit/nbt/snbt/SNBTLexer.java:362-371 | each pass of the line loop masks exactly the offsets of that line |
| Lexer.OffsetOnLine | src/main/java/cn/nukkit/nbt/snbt/SNBTLexer.java:366-367 | the offsets from one line start to the next all lie on that line |
| Lexer.LexedEffect | src/main/java/cn/nukkit/nbt/snbt/SNBTLexer.java:162-181 | `getNextToken()` adds one or two tokens and changes no other; it returns the first new token, invalid exactly when invalid input came first and regular otherwise, starting at or after the cursor and cached at its begin offset unless IGNORED; the cursor never moves back |
| Lexer.EmitEffect | src/main/java/cn/nukkit/nbt/snbt/SNBTLexer.java:173-180 | caching the merged invalid token and the token after it keeps the store well formed and returns the invalid token first |
| Lexer.NextAfterEffect | src/main/java/cn/nukkit/nbt/snbt/SNBTLexer.java:191-203 | `getNextToken(tok)` returns a usable cached successor with nothing changed; otherwise it returns a new token beginning at or after tok's end and keeps the other tokens |
| Lexer.SnbtLexer.constructor | src/main/java/cn/nukkit/nbt/snbt/SNBTLexer.java:122-132 | the content is the constructor's normalisation, the line table and flags are built, the cache is empty and every type is active |
| Lexer.SnbtLexer.SetTabSize | src/main/java/cn/nukkit/nbt/snbt/SNBTLexer.java:28-30 | sets the tab size |
| Lexer.SnbtLexer.GoTo | src/main/java/cn/nukkit/nbt/snbt/SNBTLexer.java:328-333 | the cursor lands on the first offset at or after the target that is not IGNORED |
| Lexer.SnbtLexer.ReadChar | src/main/java/cn/nukkit/nbt/snbt/SNBTLexer.java:335-351 | returns and advances exactly as `Scanner.Read` |
| Lexer.SnbtLexer.SetParsedLines | src/main/java/cn/nukkit/nbt/snbt/SNBTLexer.java:361-390 | the table becomes `Masked(...)` and the lexer stays valid |
| Lexer.SnbtLexer.MaskLines | src/main/java/cn/nukkit/nbt/snbt/SNBTLexer.java:362-373 | the line loop leaves the table equal to `Masked(...)` |
| Lexer.SnbtLexer.IgnoreRange | src/main/java/cn/nukkit/nbt/snbt/SNBTLexer.java:368-370 | exactly the offsets of the range become IGNORED |
| Lexer.SnbtLexer.GetText | src/main/java/cn/nukkit/nbt/snbt/SNBTLexer.java:444-452 | returns `TextOf`, the span without its IGNORED offsets |
| Lexer.SnbtLexer.CodePointColumn | src/main/java/cn/nukkit/nbt/snbt/SNBTLexer.java:413-438 | returns the intended column `Column` (the corrected form of the source; see Findings) |
| Lines.WalkColumns | src/main/java/cn/nukkit/nbt/snbt/SNBTLexer.java:425-437 | the column loop over a flagged line returns `Walk`: a tab moves to the next tab stop, a surrogate pair counts as one column |
| Lexer.SnbtLexer.ApplyStates | src/main/java/cn/nukkit/nbt/snbt/SNBTLexer.java:257-265 | the next states are the successors of all live states, and the type is the lowest-ordinal one reported |
| Lexer.SnbtLexer.Consume | src/main/java/cn/nukkit/nbt/snbt/SNBTLexer.java:255-268 | one pass of the NFA loop computes what `Scanner.Feed` computes |
| Lexer.SnbtLexer.FeedOne | src/main/java/cn/nukkit/nbt/snbt/SNBTLexer.java:249-270 | one turn of the NFA loop reads a code point and returns exactly `Scanner.Feed` of the live states, leaving the cursor where `Scanner.Read` ends |
| Lexer.SnbtLexer.RunMachine | src/main/java/cn/nukkit/nbt/snbt/SNBTLexer.java:239-276 | the NFA loop ends as `RunNfa` says |
| Lexer.SnbtLexer.RunFrom | src/main/java/cn/nukkit/nbt/snbt/SNBTLexer.java:242-276 | the NFA loop after its first pass ends as `RunNfa` says |
| Lexer.SnbtLexer.AttemptAt | src/main/java/cn/nukkit/nbt/snbt/SNBTLexer.java:223-283 | one outer pass returns `Attempt(...)` and leaves the cursor at its end |
| Lexer.SnbtLexer.MarkSkippedRange | src/main/java/cn/nukkit/nbt/snbt/SNBTLexer.java:284-288 | the table becomes `MarkSkipped(...)` |
| Lexer.SnbtLexer.NextToken | src/main/java/cn/nukkit/nbt/snbt/SNBTLexer.java:218-295 | type, begin, cursor and table are those of `Scan(...)` |
| Lexer.SnbtLexer.CacheToken | src/main/java/cn/nukkit/nbt/snbt/SNBTLexer.java:454-466 | the store becomes `Cache(...)` |
| Lexer.SnbtLexer.UncacheTokens | src/main/java/cn/nukkit/nbt/snbt/SNBTLexer.java:468-474 | the store becomes `Uncache(...)` |
| Lexer.SnbtLexer.GetNextToken | src/main/java/cn/nukkit/nbt/snbt/SNBTLexer.java:162-181 | store, returned token and cursor are those of `Lexed(...)` |
| Lexer.SnbtLexer.GatherTokens | src/main/java/cn/nukkit/nbt/snbt/SNBTLexer.java:163-172 | the invalid-token loop yields `Gather(...)` |
| Lexer.SnbtLexer.CacheGathered | src/main/java/cn/nukkit/nbt/snbt/SNBTLexer.java:173-180 | caching and the returned token are those of `Emit(...)` |
| Lexer.SnbtLexer.GetNextTokenAt | src/main/java/cn/nukkit/nbt/snbt/SNBTLexer.java:212-215 | scans from the first offset at or after `offset` that is not IGNORED |
| Lexer.SnbtLexer.GetNextTokenAfter | src/main/java/cn/nukkit/nbt/snbt/SNBTLexer.java:191-203 | with no token, `Lexed` from the cursor; otherwise `NextAfter(...)` |
| Lexer.SnbtLexer.GetNextTokenFollowing | src/main/java/cn/nukkit/nbt/snbt/SNBTLexer.java:195-202 | after a given token: its cached successor when that is active, a fresh scan after a reset when it is not, a scan from the token's end when nothing is cached — exactly `NextAfter(...)` |
| Lexer.SnbtLexer.ResetAndScan | src/main/java/cn/nukkit/nbt/snbt/SNBTLexer.java:198-202 | resetting to a token forgets every cached token after it and the next scan starts from the first non-IGNORED offset at its end |
| Lexer.SnbtLexer.SwitchTo | src/main/java/cn/nukkit/nbt/snbt/SNBTLexer.java:305-311 | the state becomes the one asked for, and the result says whether it changed |
| Lexer.SnbtLexer.Reset | src/main/java/cn/nukkit/nbt/snbt/SNBTLexer.java:314-321 | the cursor goes to the token's end, the cache is `Uncache(...)`, and the state is switched when one is given |
| Lexer.SnbtLexer.PreInsertToken | src/main/java/cn/nukkit/nbt/snbt/Token.java:32-43 | the store becomes `PreInsert(...)` |
| Lexer.SnbtLexer.ReplaceTypeOf | src/main/java/cn/nukkit/nbt/snbt/Token.java:208-223 | the store becomes `ReplaceType(...)`, and the new token is returned |
| Lexer.SnbtLexer.GetNext | src/main/java/cn/nukkit/nbt/snbt/Token.java:161-186 | returns `NextParsed(...)` |
| Lexer.SnbtLexer.GetPrevious | src/main/java/cn/nukkit/nbt/snbt/Token.java:169-175 | returns `PreviousParsed(...)` |
| Lexer.SnbtLexer.PrecedingUnparsedTokens | src/main/java/cn/nukkit/nbt/snbt/Token.java:293-302 | returns `PrecedingUnparsed(...)` |
| Tree.InsertShifts | src/main/java/cn/nukkit/nbt/snbt/BaseNode.java:93-96 | inserting puts the node at the index, keeps earlier children and shifts later ones up by one; the multiset grows by the node |
| Tree.InsertAtEnd | src/main/java/cn/nukkit/nbt/snbt/BaseNode.java:87-90 | `addChild(n)` is `addChild(size, n)`: appending |
| Tree.RemoveAtShifts | src/main/java/cn/nukkit/nbt/snbt/BaseNode.java:110-112 | removing drops exactly that child and keeps the others in order |
| Tree.RemoveUndoesInsert | src/main/java/cn/nukkit/nbt/snbt/BaseNode.java:93-112 | removing at the index of an insert restores the list |
| Tree.AddedChildEffect | src/main/java/cn/nukkit/nbt/snbt/BaseNode.java:87-96 | the count grows by one, the node sits at the index with this node as parent, the others shift, no other node changes, and every id stays valid |
| Tree.ReplacedChildEffect | src/main/java/cn/nukkit/nbt/snbt/BaseNode.java:104-107 | the count is kept, the node replaces the child at the index with this node as parent, and the other children stay |
| Tree.RemovedChildEffect | src/main/java/cn/nukkit/nbt/snbt/BaseNode.java:110-112 | the count shrinks by one, the other children keep their order, and no other node changes, the removed node's parent link included |
| Tree.RemoveUndoesAdd | src/main/java/cn/nukkit/nbt/snbt/BaseNode.java:93-112 | removing at the index just added restores the child list |
| Tree.NamedChild | src/main/java/cn/nukkit/nbt/snbt/BaseNode.java:160-165 | null for a name never bound |
| Tree.NamedChildList | src/main/java/cn/nukkit/nbt/snbt/BaseNode.java:179-184 | a list exactly for names used |
| Tree.NamedChildBinding | src/main/java/cn/nukkit/nbt/snbt/BaseNode.java:167-177 | a new binding reads back as bound and leaves other names and the children alone |
| Tree.WithListedEffect | src/main/java/cn/nukkit/nbt/snbt/BaseNode.java:186-196 | the name's list (empty when new) grows by exactly the node, and other names are unaffected |
| Tree.FirstSourceIsFirst | src/main/java/cn/nukkit/nbt/snbt/BaseNode.java:13-21 | the source found is that of the first child, in child order, that has one; when none is found no child has one |
| Tree.MemoKeepsSource | src/main/java/cn/nukkit/nbt/snbt/BaseNode.java:13-21 | memoising never changes what `getTokenSource` returns for any node |
| Tree.MemoOnlyTrans | src/main/java/cn/nukkit/nbt/snbt/BaseNode.java:13-21 | memoising in several calls is still only memoising |
| Tree.Forest.GetChildCount | src/main/java/cn/nukkit/nbt/snbt/BaseNode.java:120-122 | the size of the child list, 0 for a token leaf |
| Tree.Forest.GetChild | src/main/java/cn/nukkit/nbt/snbt/BaseNode.java:99-101 | child `i` of a base node; null exactly for a token leaf |
| Tree.Forest.Children | src/main/java/cn/nukkit/nbt/snbt/BaseNode.java:125-127 | a base node's child list, the empty list for a token leaf (Token.java:443-445); its length is getChildCount and slot i is getChild(i) |
| Tree.Forest.IndexOf | src/main/java/cn/nukkit/nbt/snbt/Token.java:418-420 | a token leaf answers -1 for every node, none being among its children |
| Tree.Forest.AddChild | src/main/java/cn/nukkit/nbt/snbt/BaseNode.java:87-90 | the node is appended and adopted; a token leaf refuses and nothing changes |
| Tree.Forest.AddChildAt | src/main/java/cn/nukkit/nbt/snbt/BaseNode.java:93-96 | the arena becomes `AddedChild(...)`; a token leaf refuses |
| Tree.Forest.SetChild | src/main/java/cn/nukkit/nbt/snbt/BaseNode.java:104-107 | the arena becomes `ReplacedChild(...)`; a token leaf refuses |
| Tree.Forest.RemoveChild | src/main/java/cn/nukkit/nbt/snbt/BaseNode.java:110-112 | returns the former child and the arena becomes `RemovedChild(...)`; a token leaf refuses |
| Tree.Forest.ClearChildren | src/main/java/cn/nukkit/nbt/snbt/BaseNode.java:115-117 | the child count becomes 0 and nothing else changes; on a token leaf nothing happens |
| Tree.Forest.GetNamedChild | src/main/java/cn/nukkit/nbt/snbt/BaseNode.java:160-165 | the bound node, null when the name is unbound |
| Tree.Forest.SetNamedChild | src/main/java/cn/nukkit/nbt/snbt/BaseNode.java:167-177 | a bound name is refused with nothing changed; otherwise the name reads back as the node |
| Tree.Forest.GetNamedChildList | src/main/java/cn/nukkit/nbt/snbt/BaseNode.java:179-184 | the list kept under the name, null when never used |
| Tree.Forest.AddToNamedChildList | src/main/java/cn/nukkit/nbt/snbt/BaseNode.java:186-196 | the name's list, created empty on first use, gets the node appended |
| Tree.Forest.SetTokenSource | src/main/java/cn/nukkit/nbt/snbt/BaseNode.java:24-26 | sets a base node's memo (a token leaf's own source) |
| Tree.Forest.GetTokenSource | src/main/java/cn/nukkit/nbt/snbt/BaseNode.java:13-21 | returns `SourceOf(...)` of the old arena, memoises it on the node, only ever fills memos with the values they would compute, and changes nothing once a memo is set |

## Left out

- The `javaUnicodeEscape` branch of `mungeContent` is not modelled; the constructor never enables it.
- Reading input from a `Reader`, byte decoding and charsets are left out (I/O).
- `inputSource`, `getLocation`, `toString`, `displayChar`, `addEscapes` and diagnostics are left out (text formatting only).
- The NFA transition tables (`SNBTNfaData`) are not part of this model; `Nfa` is a parameter, and states are any naturals rather than bits of a 76-bit set.
- `SNBTConstants` is not part of this model: the `TokenType` ordinal order is taken to be EOF, COLON, COMMA, OPEN_BRACKET, CLOSE_BRACKET, OPEN_BRACE, CLOSE_BRACE, WHITESPACE, BOOLEAN, FLOAT, DOUBLE, INTEGER, LONG, BYTE, SHORT, STRING, B, _TOKEN_17, I, INVALID. The token subclasses (`Delimiter`, `Literal`, `WHITESPACE`, `InvalidToken`) are reduced to the type tag.
- `unparsedTokens` and `moreTokens` are empty in this lexer, so the `inMore` path of `nextToken` never runs and is not modelled.
- `currentStates`/`nextStates` are local sets rather than fields swapped between passes.
- The class `LexicalState` has one value, so `Lexer.SnbtLexer.SwitchTo` is written as one assignment rather than a test then an assignment; the result is the same.
- `nextToken`, `getNextToken()`, `setParsedLines` and `createLineOffsetsTable` are each split into several methods (one per loop) so that each proof stays small; together they run the same statements.
- Lexer.SnbtLexer.CodePointColumn: computes the corrected column (line index from the line table), not the source's clamped one; the source's version is `Lines.ColumnAsWritten` and the two are proved equal for startingLine >= 1.
- Lines.LineFromOffset at or past the end of empty content is None, where the source throws on `charAt(-1)`.
- Out-of-range offsets and indices (`goTo`, `getText`, `getChild`, `addChild(i, n)`, `setChild`, `removeChild`) are preconditions; the source throws `IndexOutOfBoundsException`.
- Lexer.SnbtLexer.SetTabSize: requires a tab size of at least 1; the source accepts any int and would divide by zero later.
- The marker tokens IGNORED and SKIPPED are shared static objects in the source; here they are reference values whose own links are never written, so a `preInsert` or `replaceType` that would write a link of a marker token writes nothing.
- Every token belongs to the one lexer that made it, so `Token.getTokenSource`'s fallback through the prepended/appended tokens is not modelled, and `getSource` never sees a null lexer.
- Walks along token links (`getNext`, `getPrevious`, `precedingUnparsedTokens`) take at most the number of tokens plus two steps and report `Cut` beyond that, where the source would loop forever on a cycle.
- Lexer.SnbtLexer.CacheToken: follows the chain of inserted tokens for at most `fuel` steps and returns false when it is longer; the source recurses without bound.
- Lexer.SnbtLexer.PreInsertToken: follows `preInsert` as written, self-loop included, so that it stays the source's operation; the corrected splice `Tokens.PreInsertGuarded` is proved beside it and agrees with it except in that case.
- Lexer.SnbtLexer.GetNextTokenAfter: the token argument is a token of the arena or absent; a marker token cannot be passed.
- Invalid tokens merged into an earlier invalid token by `getNextToken()` are not added to the arena: only the merged token is.
- Token fields never read by the core (`image` setters, `copyLocationInfo`, iterators `precedingTokens`/`followingTokens`, `getNormalizedText`) are left out.
- Tree nodes live in an arena and are named by index, so Java object identity becomes index equality; `getNamedChildList` returns the list's contents, not a live list that later appends would change.
- The lazily created named-child maps are modelled as maps that start empty; a missing map and an empty one answer every query alike.
- `BaseNode.setListClass`/`newList` (a reflective choice of `List` class) are left out; the child list is a sequence.
- Tree.Forest.IndexOf: models only the token leaf's override; a base node's `indexOf` is the `Node` interface's default method, and `Node.java` is not part of this model.
- Tree.Forest.GetTokenSource: requires the child lists to be acyclic (a rank that decreases from parent to child); the source overflows its stack when the search meets a cycle before it finds a memo or a source, and the model excludes every cycle in the arena.
- `BaseNode.toString`, `getBeginOffset`/`setBeginOffset`, `getEndOffset`/`setEndOffset` and `isUnparsed`/`setUnparsed` are plain field accessors and are left out.

## Findings

| source | as written | input that shows it | evidently intended | confidence | as-written member | corrected member |
|---|---|---|---|---|---|---|
| src/main/java/cn/nukkit/nbt/snbt/SNBTLexer.java:403-416 | `getCodePointColumnFromOffset` takes the line index as `getLineFromOffset(pos) - startingLine`, but `getLineFromOffset` clamps its result to at least 1 | content "a\nb", startingLine 0, startingColumn 1, offset 1: the line index becomes 1, the line start 2, and the column 0 | the index of the last line start at or before the offset (here 0), giving column 2 | not executed; medium (startingLine 0 is legal in the constructor but unusual) | Lines.ColumnAsWrittenClampMismatch | Lines.ColumnPositive |
| src/main/java/cn/nukkit/nbt/snbt/Token.java:32-43 | `preInsert(p)` returns early only when p is already t's `prependedToken`; when p is instead t's previous token through the lexer's cache, `existingPreviousToken` is p itself, so p's `appendedToken` and `prependedToken` are both set to p | tokens p = [0,1) and t = [1,2), both cached at their begin offsets, t with no prepended link; `t.preInsert(p)` | leave the previous token unlinked when it is p, so p links forward to t and t back to p | not executed; low (callers may never pass the token already before t) | Tokens.PreInsertSelfLoop | Tokens.PreInsertGuardedSplices |
