# rlex in Dafny

A model of the core of rlex, a small lexer generator written in Rust. Patterns are
regular expressions (`Regex`), optionally referring to named sub-patterns through a
name table. Each pattern is normalised (`to_regular`) and compiled by the Thompson
construction (`create_nfa`, `to_nfa`) into an NFA whose states are drawn from one
shared counter. The per-pattern automata are glued under a fresh start state
(`glue_nfas`), and the final state of each pattern is bound to that pattern's action.
A `LexemeStream` then scans a text by maximal munch:

- it simulates the glued automaton with `epsilon_closure` and `make_transition`;
- it takes the longest prefix that reaches a final state;
- it breaks ties by the smallest final state, which belongs to the pattern added first.

Modules, one per concern of the source:

- `Wrappers`: `Option` and `Result`.
- `Transitions`: the transition table `Delta`, `EPSILON_CHR` and `expand_trans` (src/regex.rs).
- `RegexSyntax`: the `Regex` datatype, `from_str`, `from_range`, `all_except` and `to_regular` (src/regex.rs).
- `Nfa`: the `NFA` record, `glue_nfas`, `epsilon_closure` and `make_transition` (src/nfa.rs).
  - The ε-closure is specified as reflexive-transitive ε-reachability.
  - The one-symbol step is specified as a set comprehension.
- `Thompson`: `create_nfa` with its cases, and `to_nfa` (src/regex.rs).
  - The `&mut Delta` and `&mut i32` arguments are passed in and handed back.
  - `EdgesOf(r, counter, current)` is the table of transitions the construction adds for the primitive regex `r`, case by case, in the order the Rust code writes them. `Size(r)` is the number of states it allocates.
  - Every `Create*` method is proved to return the old table joined with `EdgesOf` of its normalised regex, and to move the counter on by `Size`. `ToNfa` returns `ThompsonNfa(r, counter)`, the automaton built from those two.
  - The lemmas about `EdgesOf` show where its states lie, and that no `expand_trans` call overwrites an entry written before it, so the overwrite never loses a transition.
- `Lexing`: `LexerBuilder` and `Lexer::new` (src/lexer.rs).
  - The contract of `New` says which automaton each pattern compiles to (`FromPatterns`), where it sits in the state space, and which action each final state is bound to.
- `GluedRuns`: what the glued automaton recognises (src/nfa.rs, src/lexer.rs).
  - Seen from the states of one pattern, running the glued automaton is running that pattern's own automaton.
  - A token is therefore accepted exactly when some pattern accepts it, and maximal munch picks the earliest pattern that accepts the longest token.
- `Scanning`: `LexemeStream`, a class with the lexer, the characters of the text and a mutable cursor (src/lexer.rs).
  - `GetNextToken` is proved against `Scan`, a declarative description of one token. `Scan` covers the longest accepted prefix, the smallest final state and the error case.
  - `Scan` is built on `Run`, the state set after reading a slice of the text.

## Model

| member | source | states |
|---|---|---|
| Transitions.ExpandTrans | src/regex.rs:41-48 | the key gets exactly the new successor set, even when it already had one; every other entry is unchanged |
| Transitions.UnionTrans | src/regex.rs:43-44 | the accumulating update that the `extend` line performs before the overwrite: old successors plus new ones |
| Transitions.ExpandTransIsUnionIff | src/regex.rs:41-48 | `expand_trans` equals the accumulating update if and only if the key is new or its old successors are all in the new set |
| RegexSyntax.FromStr | src/regex.rs:54-62 | the result is primitive and reads back (as a `Seqn`/`Char` chain closed by `Epsilon`) as exactly the input string |
| RegexSyntax.FromStrOfAsString | src/regex.rs:54-62 | any chain that reads back as `s` is `from_str(s)`, so `from_str` and the read-back are inverse |
| RegexSyntax.FromRange | src/regex.rs:64-67 | a `Set` holding exactly the characters from `begin` to `end` inclusive, empty when `begin > end` |
| RegexSyntax.AllExcept | src/regex.rs:70-74 | a `Set` holding exactly the characters with codes 0 to 126 that are not removed |
| RegexSyntax.ToRegular | src/regex.rs:76-111 | succeeds if and only if every reachable name resolves; the result is primitive; primitive input comes back unchanged |
| RegexSyntax.ToRegularIdempotent | src/regex.rs:76-111 | normalising a normalised regex again, even without a name table, gives the same result |
| RegexSyntax.NameErrors | src/regex.rs:80-89 | a name without a table is the "no name list" error, an unknown name is the "not found" error, a known name is its definition normalised |
| RegexSyntax.SugarExpansion | src/regex.rs:91-100 | `Str` becomes `from_str`, `Range` becomes `from_range`, `Plus(a)` becomes `Seqn(a', Star(a'))`, `Optional(a)` becomes `Or(a', Epsilon)`, and errors inside propagate |
| Nfa.CopyEntries | src/nfa.rs:32-36 | copying a table entry by entry with `expand_trans` yields the old table overridden by the copied one |
| Nfa.GlueNfas | src/nfa.rs:19-44 | the new start state is `new_fst_state`, the finals are the union of all finals, and the table is the tables merged in order plus the start's ε-entry to every initial state |
| Nfa.MergedKeys | src/nfa.rs:27-36 | a key is in the merged table if and only if some input table has it |
| Nfa.InitialsMember | src/nfa.rs:29 | a state is among the collected first states if and only if it is some input's initial state |
| Nfa.AllFinalsMember | src/nfa.rs:30 | a state is among the collected finals if and only if it is final in some input |
| Nfa.MergedKeepsEntries | src/nfa.rs:27-36 | with pairwise disjoint tables, every input transition survives the merge unchanged |
| Nfa.GluedTable | src/nfa.rs:19-44 | with disjoint tables that avoid the glue key, the glued table is every input transition unchanged, plus the start's ε-entry, and nothing else |
| Nfa.ClosureIsReachability | src/nfa.rs:47-79 | a state is in the closure if and only if a path of ε-edges leads to it from an input state |
| Nfa.ClosureContainsInput | src/nfa.rs:51 | the input states are in their closure |
| Nfa.ClosureIsClosed | src/nfa.rs:57-67 | the closure is closed under ε-edges |
| Nfa.ClosureIsLeast | src/nfa.rs:47-79 | the closure lies inside every ε-closed superset of the input |
| Nfa.ClosureIdempotent | src/nfa.rs:47-79 | closing twice is closing once |
| Nfa.ClosureMonotone | src/nfa.rs:47-79 | a larger input has a larger closure |
| Nfa.ClosureOfEmpty | src/nfa.rs:47-79 | the closure of no states is empty |
| Nfa.VisitPass | src/nfa.rs:55-73 | one pass over the work list keeps the work-list invariant; either some state is newly visited or the list empties |
| Nfa.EpsilonClosure | src/nfa.rs:47-79 | the work-list loop terminates and returns exactly the ε-closure of its input |
| Nfa.StepDistributes | src/nfa.rs:81-94 | the one-symbol step distributes over union of state sets |
| Nfa.StepOfOne | src/nfa.rs:87-89 | the step of one state is its table entry for the symbol, or nothing when the key is missing |
| Nfa.StepOfEmpty | src/nfa.rs:81-94 | the step of no states is empty |
| Nfa.MakeTransition | src/nfa.rs:81-94 | the result is exactly the union of the symbol-successors of the current states |
| Thompson.NormalIsToRegular | src/regex.rs:209 | the fallback's `to_regular(None)` succeeds if and only if the regex mentions no name, and then yields `Normal(r)` |
| Thompson.NormalOfPrimitive | src/regex.rs:116-207 | a primitive regex mentions no name and is its own normal form, so the construction builds it as it is |
| Thompson.SetMapPoints | src/regex.rs:137-139 | the entries of the `Set` case are exactly the keys `(current, c)` for the characters `c` of the set, each mapped to the target |
| Thompson.ExitMapPoints | src/regex.rs:153-156 | the entries of a loop over exit states are exactly the ε-keys of those states, each mapped to the target |
| Thompson.SetMapAdd | src/regex.rs:137-139 | one more character of the set is one more entry, written over the table so far |
| Thompson.ExitMapAdd | src/regex.rs:153-156 | one more exit state is one more ε-entry, written over the table so far |
| Thompson.EdgesLayout | src/regex.rs:114-207 | every key of a fragment leaves `current` or one of the states allocated for it other than its exit, and every edge leads into the allocated states |
| Thompson.SeqnLayout | src/regex.rs:144-160 | the `Seqn` fragment keeps that layout, with the right part allocated after the left part and its entry |
| Thompson.OrLayout | src/regex.rs:162-187 | the `Or` fragment keeps that layout: branch entries, branches and end state allocated in that order |
| Thompson.StarLayout | src/regex.rs:189-207 | the `Star` fragment keeps that layout: body entry, body and after-state allocated in that order |
| Thompson.NoWriteLost | src/regex.rs:114-207 | every table a case writes at its top level appears unchanged in the result, so the overwrite inside `expand_trans` never discards a transition |
| Thompson.SeqnNoWriteLost | src/regex.rs:144-160 | for `Seqn`: the left part, the ε-link from its exit and the right part all survive unchanged |
| Thompson.OrNoWriteLost | src/regex.rs:162-187 | for `Or`: both branches, the ε-entry of `current` and the ε-links of both exits all survive unchanged |
| Thompson.StarNoWriteLost | src/regex.rs:189-207 | for `Star`: the body and the ε-entries of its exit and of `current` all survive unchanged |
| Thompson.TableKept | src/regex.rs:114-213 | the entries already in the table, when they leave states below the counter other than `current`, are unchanged by the construction |
| Thompson.NfaLayout | src/regex.rs:216-227 | the automaton has the counter on entry as its initial state, the last allocated state as its single final state, keys leaving the states below that, and edges into the states above the initial one |
| Thompson.SetEdges | src/regex.rs:137-139 | the table joined with the entries `(current, c) -> target` for every character of the set |
| Thompson.LinkExits | src/regex.rs:153-156 | the table joined with the entries `(s, ε) -> target` for every exit state `s` |
| Thompson.CreateNfa | src/regex.rs:114-213 | the table joined with `EdgesOf` of the normalised regex; the counter moves on by its `Size`; the single exit is the last state allocated |
| Thompson.CreateSugar | src/regex.rs:209 | the fallback case builds the normalised regex: the same table, counter and exit as building `Normal(r)` directly |
| Thompson.CreateSeqn | src/regex.rs:144-160 | the left part from `current`, an ε-edge from its exit to a fresh entry, and the right part from that entry, joined to the table as `EdgesOf` of the `Seqn` |
| Thompson.CreateOr | src/regex.rs:162-187 | both branches from fresh entries, `current` ε-linked to both entries, both exits ε-linked to a fresh end state, joined to the table as `EdgesOf` of the `Or` |
| Thompson.CloseOr | src/regex.rs:173-186 | the ε-entry of `current` to both branch entries, then the ε-entries of each branch exit to the end state, written in that order |
| Thompson.CreateStar | src/regex.rs:189-207 | the body from a fresh entry, then the body exit and `current` both ε-linked to that entry and to a fresh after-state, joined to the table as `EdgesOf` of the `Star` |
| Thompson.ToNfa | src/regex.rs:216-227 | the automaton with the counter on entry as initial state, the table `EdgesOf` of the normalised regex, and the last allocated state as single final state; the counter moves past it |
| Lexing.FromNames | src/lexer.rs:49-52 | a builder with the given names and no pattern |
| Lexing.AddPattern | src/lexer.rs:54-59 | the pattern goes to the back and the earlier patterns keep their positions |
| Lexing.Bind | src/lexer.rs:82-85 | the final state of the pattern is bound to its action and every other binding is unchanged |
| Lexing.PatternFinalsSnoc | src/lexer.rs:82-85 | one more range adds exactly its last state to the final states of the patterns |
| Lexing.LayoutExtend | src/lexer.rs:80 | compiling the next pattern from the current counter extends the layout of states by one range |
| Lexing.LayoutDisjoint | src/lexer.rs:78-91 | the pattern tables are pairwise disjoint and none contains the glue key |
| Lexing.ProgressStep | src/lexer.rs:78-89 | one more compiled and bound pattern keeps the loop invariant: layout, bound states equal to the final states, each bound to its pattern's action |
| Lexing.ActionsKept | src/lexer.rs:82-85 | binding the new final state leaves every earlier pattern's action in place |
| Lexing.EarlierExitKept | src/lexer.rs:82-85 | an earlier pattern's final state lies below the new one and stays bound to its action |
| Lexing.NothingCompiled | src/lexer.rs:73-76 | before the loop: no automaton, the counter at 0, no binding |
| Lexing.FromPatternsSnoc | src/lexer.rs:80-87 | pushing the automaton of the next pattern's normal form, built from the current counter, extends the record of which pattern compiled to which automaton |
| Lexing.FromPatternsResolve | src/lexer.rs:80 | every pattern that was compiled had all its names resolved |
| Lexing.PartCompiled | src/lexer.rs:80 | `to_nfa` of a normalised pattern is its primitive automaton, laid out in the range from the counter to the counter afterwards |
| Lexing.PartAdded | src/lexer.rs:80-87 | compiling, binding and pushing the next pattern keeps both the loop invariant and the record of which pattern compiled to which automaton |
| Lexing.AddPart | src/lexer.rs:80-87 | one pass of the loop appends exactly the automaton of the pattern's normal form, built from the counter, moves the counter past it and keeps the loop invariant |
| Lexing.Glue | src/lexer.rs:91-93 | gluing under the counter after the last pattern yields the compiled lexer |
| Lexing.New | src/lexer.rs:71-94 | succeeds if and only if every pattern's names resolve; on failure the error is the normalisation error of the first pattern that fails, every earlier pattern having resolved; on success pattern `i` compiles to the automaton of its normal form in `[bounds[i], bounds[i+1])`, its final state is bound to its action, and the automata are glued under `bounds[n]` |
| Lexing.Build | src/lexer.rs:61-63 | the same as `Lexer::new` on the builder's names and patterns, error case included: the error is that of the first pattern that fails |
| Lexing.GluedLexerTable | src/lexer.rs:91 | the lexer's table keeps every pattern's transitions unchanged, the start state ε-links exactly to the pattern starts, and every other key and every target lies below the start state |
| Lexing.InitialsBelow | src/lexer.rs:91 | every pattern's initial state is below the glued start state |
| Lexing.EarliestPatternWins | src/lexer.rs:156-160 | the smallest final state in a state set belongs to the earliest pattern whose final state is in the set, and it is bound to that pattern's action |
| GluedRuns.ClosureSources | src/nfa.rs:47-79 | a state the closure adds to its input is the target of some ε-edge |
| GluedRuns.ClosureLocal | src/nfa.rs:47-79 | on the states of one pattern, the closure in the glued table is the closure in the pattern's table of the input states in that range, when the glue state is not among them |
| GluedRuns.StepLocal | src/nfa.rs:81-94 | on the states of one pattern, a step in the glued table is a step in the pattern's table from the input states in that range, unless the ε symbol is read from the glue state |
| GluedRuns.ClosureThroughGate | src/nfa.rs:40 | the closure of the glue state is the glue state and the closure of its ε-successors, as no edge leads back to it |
| GluedRuns.RunLocal | src/lexer.rs:122-144 | the run of a contained pattern stays in its range and, on that range, equals the run of the whole automaton; after the first character the glue state is never reached again |
| GluedRuns.GluedKeyOwner | src/nfa.rs:27-40 | every key of the lexer's table other than the glue key belongs to exactly the pattern whose states it leaves, with that pattern's successors |
| GluedRuns.CompiledContains | src/lexer.rs:91 | the lexer's automaton contains each pattern's automaton on its range: same entries there, entered only through the start state's ε-edge to that pattern's start |
| GluedRuns.GluedRunsPart | src/lexer.rs:122-144 | for a text that does not start with the ε symbol, every state of pattern `i`, its final state included, is in the lexer's run if and only if it is in pattern `i`'s own run |
| GluedRuns.GluedFinalFromPart | src/lexer.rs:154-156 | each final state the lexer reaches is the final state of a pattern whose own automaton accepts the token |
| GluedRuns.PartFinalInGlued | src/lexer.rs:154-156 | each final state a pattern's own automaton reaches is that pattern's final state, and the lexer reaches it too |
| GluedRuns.GluedAcceptsIffSomePart | src/nfa.rs:19-44 | the lexer accepts a token (not starting with the ε symbol) if and only if some pattern accepts it, and each final state reached maps back to one accepting pattern |
| GluedRuns.MunchByParts | src/lexer.rs:122-170 | a token is matched if and only if some pattern accepts some prefix from the cursor, and no pattern accepts a prefix longer than the token |
| GluedRuns.MunchEarliestPart | src/lexer.rs:154-160 | the matched token's final state and action are those of a pattern that accepts it, and no pattern added before that one accepts it |
| GluedRuns.GluedReadsEpsilonChar | src/regex.rs:7 | the automaton `SingleChar('b')`, which every lexer of the single pattern `Char('b')` has (`SingleCharLexer`), accepts the text of the ε character followed by `b` |
| GluedRuns.PartRejectsEpsilonChar | src/regex.rs:7 | the automaton of `Char('b')` on its own rejects that text |
| Scanning.RunStaysEmpty | src/lexer.rs:142-148 | once the state set is empty it stays empty for every longer prefix |
| Scanning.LongestMatch | src/lexer.rs:154-164 | the largest accepted end index up to a bound, with no accepted index above it, or none at all |
| Scanning.Munch | src/lexer.rs:122-170 | one token: the longest accepted prefix from the cursor, with the least final state it reaches, or an error at the cursor when no prefix is accepted |
| Scanning.Scan | src/lexer.rs:118-120 | end of stream if and only if the cursor is at or past the last character; otherwise one token as in `Munch` |
| Scanning.ScanIntended | src/lexer.rs:118-120 | end of stream if and only if no character is left at the cursor |
| Scanning.Stream | src/lexer.rs:182-186 | the stream from the cursor has at most `len - 1 - cursor` items and contains no end-of-stream item |
| Scanning.StreamIntended | src/lexer.rs:182-186 | the same for the intended boundary, with at most `len - cursor` items |
| Scanning.StreamStopsShort | src/lexer.rs:118 | as written, the stream leaves the cursor at `len - 1` or `len` |
| Scanning.StreamIntendedConsumesText | src/lexer.rs:118 | with the intended boundary, the stream always ends with the cursor at `len`: the whole text is consumed |
| Scanning.SingleCharLexer | src/lexer.rs:71-94 | every lexer `Lexer::new` builds from a single pattern `Char(ch)`, for any character `ch`, has the automaton `SingleChar(ch)`: the pattern's `ch`-edge from 0 to 1 and the glue state 2 ε-linked to 0 |
| Scanning.GlueOne | src/nfa.rs:19-44 | gluing one automaton keeps its table, its initial state and its final states |
| Scanning.EdgeTaken | src/lexer.rs:132-140 | a state of the run with an edge on the next character leads into the next run |
| Scanning.SingleAReaches | src/lexer.rs:122-140 | reading `a` with `SingleChar('a')`, the automaton of every lexer of the pattern `Char('a')`, reaches exactly its final state |
| Scanning.LastCharacterDropped | src/lexer.rs:118 | for the text "a" and that lexer, "a" is accepted, yet the stream as written is empty; the intended stream is the one token |
| Scanning.PushNext | src/lexer.rs:132-144 | one pass of the scan loop: the new state set is the closure of the step on the next character, and its record is pushed in front |
| Scanning.RecordPrefixes | src/lexer.rs:122-152 | record `j` holds the start, the end index counted from the back, and the state set after reading through that end; it stops at the end of the text or after the first empty state set |
| Scanning.UnrecordedRejected | src/lexer.rs:125-152 | no end index past the recorded ones is accepted |
| Scanning.MinState | src/lexer.rs:156 | `min` of a set: none if and only if the set is empty, otherwise an element no larger than any other |
| Scanning.MatchIsMunch | src/lexer.rs:154-162 | the first record from the front that meets the final states is the longest match, and its least final state is the token's |
| Scanning.NoMatchIsMunch | src/lexer.rs:154-170 | when no record meets the final states, the token is an error at the cursor |
| Scanning.FirstMatch | src/lexer.rs:154-164 | the search over the records finds the longest match and its least final state, or reports that none exists |
| Scanning.LexemeStream.constructor | src/lexer.rs:101 | a stream over the given lexer and text, with the cursor at 0 |
| Scanning.LexemeStream.NextTokenAt | src/lexer.rs:122-170 | returns the action applied to the longest token's text and moves the cursor past it, or returns an error at the cursor and moves it by one |
| Scanning.LexemeStream.GetNextToken | src/lexer.rs:113-171 | follows `Scan` from the cursor: nothing at the end, the matched token's action result, or the error; the cursor moves accordingly |
| Scanning.LexemeStream.GetNextTokenIntended | src/lexer.rs:113-171 | the same with the intended boundary, following `ScanIntended`, for any text including the empty one |
| Scanning.LexemeStream.Next | src/lexer.rs:182-186 | the same contract as `GetNextToken` |
| Scanning.EarliestPatternActs | src/lexer.rs:156-160 | for a lexer built by `New`, a matched token gets the action of the earliest pattern whose final state the longest token reaches |
| Scanning.Lexemes | src/lexer.rs:97-102 | a fresh stream over the lexer and text, with the cursor at 0 |

## Left out

- src/main.rs (a demonstration lexer for Python) is not part of this model. Neither are the `Regex` construction macros, nor the `Display` and `Error` implementations with their message texts. `NameError` keeps which of the two errors occurred and the name; `LexError` keeps the position.
- `LexerBuilder::new` is the datatype constructor `LexerBuilder`.
- State numbers are unbounded integers. An `i32` counter overflow in a very large lexer is not modelled.
- `HashMap` and `HashSet` iteration order is not modelled. Loops pick elements with `:|`, and every loop contract holds whatever the order.
- `from_str` slices `&string[1..]` by bytes, which panics when the first character is not ASCII. The model works on characters.
- Lexing.New: the `unwrap` after `to_regular` panics on an unresolved name. The model returns that error instead.
- RegexSyntax.ToRegular, Lexing.New and Lexing.Build require a name table without cycles anywhere in it (`Acyclic`: every name has a rank above the names its definition mentions). The Rust recursion fails to terminate only when a cycle is reachable from the regex being normalised. So the model also rejects tables whose cycle that regex never reaches, such as `{"a": Name("a"), "b": Char('x')}`, although `to_regular` resolves `Name("b")` against it.
- Thompson.CreateNfa and Thompson.ToNfa require that the regex mention no name. The fallback case normalises without a name table and panics on a name.
- Thompson.ToNfa states the automaton transition by transition (`ThompsonNfa`). It does not state that the automaton accepts the language of the regex: there is no language semantics for `Regex` in the model.
- Lexing.Bind requires a single final state. That is the only shape `to_nfa` produces (proved by `CreateNfa` and `ToNfa`).
- Scanning.LexemeStream.GetNextToken and Scanning.LexemeStream.Next require a non-empty text, because `len() - 1` underflows `usize` on the empty text.
- Scanning.LexemeStream.GetNextToken and Scanning.LexemeStream.Next require every final state to be bound, because of the `unwrap` on the bindings lookup. This holds for every lexer built by `Lexing.New`.
- `EPSILON_CHR` is the ordinary character 127. A text containing that character follows ε-edges as if they were labelled by it. This is modelled as written.
- GluedRuns.GluedRunsPart, GluedRuns.GluedAcceptsIffSomePart, GluedRuns.MunchByParts and GluedRuns.MunchEarliestPart require that the token not start with character 127. Read first, that character follows the start state's ε-edge into every pattern again. `GluedReadsEpsilonChar` and `PartRejectsEpsilonChar` show a text where the lexer accepts what no pattern accepts. Later in a token the character follows ε-edges inside the pattern's own automaton too, so no other position is excluded.
- The stream holds the lexer by value rather than by reference. Actions `fn(String) -> T` are function values `string -> T`.
- Scanning.LexemeStream.GetNextToken ends the stream once the cursor reaches `len - 1`, as src/lexer.rs:118 does, so the last character never starts a token; see Findings.

## Findings

| source | as written | input that shows it | evidently intended | confidence | as-written member | corrected member |
|---|---|---|---|---|---|---|
| src/lexer.rs:118 | the stream ends when the cursor is at or past `len - 1`, so the last character never starts a token (and the empty text underflows `usize`) | text "a" with the lexer of the single pattern `Char('a')` (`SingleCharLexer`): "a" is accepted but no token is produced | end the stream only when `cursor >= len`, so that every character is consumed | high; not executed | Scanning.LastCharacterDropped | Scanning.StreamIntendedConsumesText |
