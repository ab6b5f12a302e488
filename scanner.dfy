/**
 * The token stream of src/lexer.rs (`Lexer::lexemes`, `LexemeStream::get_next_token`
 * and `Iterator::next`). The scanner simulates the glued automaton from the cursor one
 * character at a time, keeps the state set after each character, and then takes the
 * longest prefix whose state set contains a final state; among those final states the
 * smallest one picks the action.
 */
module Scanning {
  import opened Wrappers
  import opened Transitions
  import opened RegexSyntax
  import opened Nfa
  import opened Thompson
  import opened Lexing

  /** The error reported for a position where no pattern matches. */
  datatype LexError = LexError(position: nat)

  /** What one call of the scanner does, described without the token value. */
  datatype Outcome =
    | EndOfStream
    | Matched(end: nat, final: int)
    | Unrecognised(position: nat)

  /**
   * The states the automaton can be in after reading `text[start..end]` from its
   * initial state: the ε-closure of the initial state, then one `make_transition`
   * followed by an ε-closure per character.
   */
  ghost function Run(nfa: NFA, text: string, start: nat, end: nat): set<int>
    requires start <= end <= |text|
    decreases end - start
  {
    if end == start then Closure(nfa.delta, {nfa.initial})
    else Closure(nfa.delta, Step(nfa.delta, Run(nfa, text, start, end - 1), text[end - 1]))
  }

  /** Once the state set is empty it stays empty, whatever follows. */
  lemma {:induction false} RunStaysEmpty(nfa: NFA, text: string, start: nat, a: nat, b: nat)
    requires start <= a <= b <= |text|
    requires Run(nfa, text, start, a) == {}
    ensures Run(nfa, text, start, b) == {}
    decreases b - a
  {
    if a < b {
      RunStaysEmpty(nfa, text, start, a, b - 1);
      StepOfEmpty(nfa.delta, text[b - 1]);
      ClosureOfEmpty(nfa.delta);
    }
  }

  /** The final states reached by the token `text[start..=end]`. */
  ghost function FinalsReached(nfa: NFA, text: string, start: nat, end: nat): set<int>
    requires start <= end < |text|
  {
    Run(nfa, text, start, end + 1) * nfa.finals
  }

  /** Some pattern matches the token `text[start..=end]`. */
  ghost predicate Accepting(nfa: NFA, text: string, start: nat, end: nat) {
    start <= end < |text| && exists f :: f in FinalsReached(nfa, text, start, end)
  }

  /** The largest `end <= hi` such that `text[start..=end]` is accepted, if any. */
  ghost function LongestMatch(nfa: NFA, text: string, start: nat, hi: int): (r: Option<nat>)
    requires hi < |text|
    ensures r.Some? ==> start <= r.value <= hi && Accepting(nfa, text, start, r.value)
    ensures r.Some? ==> forall e :: r.value < e <= hi ==> !Accepting(nfa, text, start, e)
    ensures r.None? ==> forall e :: start <= e <= hi ==> !Accepting(nfa, text, start, e)
    decreases hi + 1 - start
  {
    if hi < start then None
    else if exists f :: f in FinalsReached(nfa, text, start, hi) then Some(hi)
    else LongestMatch(nfa, text, start, hi - 1)
  }

  /** A non-empty finite set of integers has a least element. */
  lemma {:induction false} MinExists(s: set<int>)
    requires exists x :: x in s
    ensures exists m :: m in s && forall y :: y in s ==> m <= y
    decreases |s|
  {
    var x :| x in s;
    var rest := s - {x};
    if exists y :: y in rest {
      MinExists(rest);
      var m :| m in rest && forall y :: y in rest ==> m <= y;
      var least := if x < m then x else m;
      forall y | y in s ensures least <= y {
        if y != x {
          assert y in rest;
        }
      }
    } else {
      assert forall y :: y in s ==> y == x;
    }
  }

  /**
   * One token from `cursor`, declaratively: the longest accepted token starting at
   * `cursor`, with the smallest final state it reaches; or, when no prefix is accepted,
   * an error at `cursor`.
   */
  ghost function Munch(nfa: NFA, text: string, cursor: nat): (o: Outcome)
    requires cursor < |text|
    ensures !o.EndOfStream?
    ensures o.Matched? ==>
      && cursor <= o.end < |text|
      && o.final in FinalsReached(nfa, text, cursor, o.end)
      && (forall g :: g in FinalsReached(nfa, text, cursor, o.end) ==> o.final <= g)
      && (forall e :: o.end < e < |text| ==> !Accepting(nfa, text, cursor, e))
    ensures o.Unrecognised? ==>
      o.position == cursor && forall e :: cursor <= e < |text| ==> !Accepting(nfa, text, cursor, e)
  {
    match LongestMatch(nfa, text, cursor, |text| - 1)
    case None => Unrecognised(cursor)
    case Some(e) =>
      var reached := FinalsReached(nfa, text, cursor, e);
      MinExists(reached);
      var f :| f in reached && forall g :: g in reached ==> f <= g;
      Matched(e, f)
  }

  /**
   * What `get_next_token` does from `cursor`, with its boundary test as written: the
   * stream ends once the cursor reaches the LAST character, so that character never
   * starts a token.
   */
  ghost function Scan(nfa: NFA, text: string, cursor: nat): (o: Outcome)
    ensures o.EndOfStream? <==> cursor >= |text| - 1
  {
    if cursor >= |text| - 1 then EndOfStream else Munch(nfa, text, cursor)
  }

  /** The scan with the boundary test the stream evidently intends: it ends only when no character is left. */
  ghost function ScanIntended(nfa: NFA, text: string, cursor: nat): (o: Outcome)
    ensures o.EndOfStream? <==> cursor >= |text|
  {
    if cursor >= |text| then EndOfStream else Munch(nfa, text, cursor)
  }

  /** Where the cursor goes after an outcome; every outcome but the end moves it forward. */
  function NextCursor(o: Outcome, cursor: nat): nat {
    match o
    case EndOfStream => cursor
    case Matched(end, _) => end + 1
    case Unrecognised(_) => cursor + 1
  }

  /** The cursor after a sequence of outcomes, each applied in turn from `cursor`. */
  function Consumed(items: seq<Outcome>, cursor: nat): nat
    decreases |items|
  {
    if |items| == 0 then cursor else Consumed(items[1..], NextCursor(items[0], cursor))
  }

  /**
   * The whole stream from `cursor`, as the repeated calls of `next` produce it: each
   * item moves the cursor forward, so there are at most `|text| - 1 - cursor` items
   * and none of them is the end of the stream.
   */
  ghost function Stream(nfa: NFA, text: string, cursor: nat): (s: seq<Outcome>)
    ensures |s| <= if cursor < |text| then |text| - 1 - cursor else 0
    ensures forall i :: 0 <= i < |s| ==> !s[i].EndOfStream?
    decreases |text| - cursor
  {
    var o := Scan(nfa, text, cursor);
    if o.EndOfStream? then []
    else [o] + Stream(nfa, text, NextCursor(o, cursor))
  }

  /** The stream built from `ScanIntended`. */
  ghost function StreamIntended(nfa: NFA, text: string, cursor: nat): (s: seq<Outcome>)
    ensures |s| <= if cursor < |text| then |text| - cursor else 0
    ensures forall i :: 0 <= i < |s| ==> !s[i].EndOfStream?
    decreases |text| - cursor
  {
    var o := ScanIntended(nfa, text, cursor);
    if o.EndOfStream? then []
    else [o] + StreamIntended(nfa, text, NextCursor(o, cursor))
  }

  /** As written, the stream stops at `|text| - 1` or `|text|`: at most the last character is left over. */
  lemma {:induction false} StreamStopsShort(nfa: NFA, text: string, cursor: nat)
    requires 0 < |text| && cursor <= |text|
    ensures |text| - 1 <= Consumed(Stream(nfa, text, cursor), cursor) <= |text|
    decreases |text| - cursor
  {
    var o := Scan(nfa, text, cursor);
    if !o.EndOfStream? {
      var s := Stream(nfa, text, cursor);
      assert s[1..] == Stream(nfa, text, NextCursor(o, cursor));
      StreamStopsShort(nfa, text, NextCursor(o, cursor));
    }
  }

  /** With the intended boundary the stream consumes the whole text, whatever it contains. */
  lemma {:induction false} StreamIntendedConsumesText(nfa: NFA, text: string, cursor: nat)
    requires cursor <= |text|
    ensures Consumed(StreamIntended(nfa, text, cursor), cursor) == |text|
    decreases |text| - cursor
  {
    var o := ScanIntended(nfa, text, cursor);
    if !o.EndOfStream? {
      var s := StreamIntended(nfa, text, cursor);
      assert s[1..] == StreamIntended(nfa, text, NextCursor(o, cursor));
      StreamIntendedConsumesText(nfa, text, NextCursor(o, cursor));
    }
  }

  /**
   * The automaton `Lexer::new` builds for the single pattern `Char(ch)`: the pattern's
   * state 0 reads `ch` into its final state 1, and the glue state 2 has an ε-edge to 0.
   */
  function SingleChar(ch: char): NFA {
    NFA(map[(0, ch) := {1}, (2, EPSILON_CHR) := {0}], 2, {1})
  }

  /** Every lexer built from the single pattern `Char(ch)` has the automaton `SingleChar(ch)`. */
  lemma SingleCharLexer<T>(names: NamesList, ch: char, f: string -> T, lx: Lexer<T>, parts: seq<NFA>,
                           bounds: seq<int>)
    requires Compiled([(Char(ch), f)], lx, parts, bounds) && FromPatterns(names, [(Char(ch), f)], parts, bounds)
    ensures lx.nfa == SingleChar(ch)
  {
    assert ToRegular(Char(ch), Some(names)) == Ok(Char(ch));
    assert parts == [NFA(map[(0, ch) := {1}], 0, {1})] && bounds == [0, 2];
    GlueOne(parts[0]);
  }

  /** Gluing one automaton keeps its table, its initial state and its final states. */
  lemma GlueOne(p: NFA)
    ensures Merged([p]) == p.delta && Initials([p]) == {p.initial} && AllFinals([p]) == p.finals
  {
    assert [p][..0] == [];
  }

  /** A state of the run after `text[start..end]` with an edge on `text[end]` leads into the next run. */
  lemma EdgeTaken(nfa: NFA, text: string, start: nat, end: nat, s: int, t: int)
    requires start <= end < |text| && s in Run(nfa, text, start, end)
    requires (s, text[end]) in nfa.delta && t in nfa.delta[(s, text[end])]
    ensures t in Run(nfa, text, start, end + 1)
  {
    var stepped := Step(nfa.delta, Run(nfa, text, start, end), text[end]);
    assert t in stepped;
    ClosureContainsInput(nfa.delta, stepped);
  }

  /** Reading `a` from the initial state of `SingleChar('a')` reaches exactly its final state. */
  lemma SingleAReaches()
    ensures FinalsReached(SingleChar('a'), "a", 0, 0) == {1}
  {
    var nfa := SingleChar('a');
    assert EpsPath(nfa.delta, [2, 0]);
    ClosureIsReachability(nfa.delta, {2}, 0);
    EdgeTaken(nfa, "a", 0, 0, 0, 1);
  }

  /**
   * The text "a" against the lexer of the single pattern `Char('a')`: the whole text is a
   * token, yet the stream as written is empty, while the intended stream holds that one
   * token.
   */
  lemma LastCharacterDropped()
    ensures Accepting(SingleChar('a'), "a", 0, 0)
    ensures Stream(SingleChar('a'), "a", 0) == []
    ensures StreamIntended(SingleChar('a'), "a", 0) == [Matched(0, 1)]
  {
    var nfa, text := SingleChar('a'), "a";
    SingleAReaches();
    assert 1 in FinalsReached(nfa, text, 0, 0);
    var o := Munch(nfa, text, 0);
    assert o.Matched? && o.end == 0 && o.final in FinalsReached(nfa, text, 0, 0);
    assert o == Matched(0, 1);
    assert StreamIntended(nfa, text, 1) == [];
  }

  /** The record the scan loop pushes after reading `text[end]`. */
  ghost function Entry(nfa: NFA, text: string, start: nat, end: nat): (nat, nat, set<int>)
    requires start <= end < |text|
  {
    (start, end, Run(nfa, text, start, end + 1))
  }

  /**
   * The records of the scan loop, most recent first: record `j` is the token start, the
   * end index `start + |stack| - 1 - j` and the state set after that end. The loop
   * stops at the end of the text or right after the first empty state set.
   */
  ghost predicate Recorded(nfa: NFA, text: string, start: nat, stack: seq<(nat, nat, set<int>)>) {
    && 0 < |stack| && start + |stack| <= |text|
    && (forall j :: 0 <= j < |stack| ==> stack[j] == Entry(nfa, text, start, start + |stack| - 1 - j))
    && (forall j :: 0 < j < |stack| ==> stack[j].2 != {})
    && (start + |stack| == |text| || stack[0].2 == {})
  }

  /**
   * One pass of the loop of `get_next_token`: reads the next character, moves the
   * state set on by it and pushes the record of that character onto the front.
   */
  method PushNext(nfa: NFA, text: string, start: nat, stack: seq<(nat, nat, set<int>)>, current: set<int>)
    returns (pushed: seq<(nat, nat, set<int>)>, reached: set<int>)
    requires start + |stack| < |text|
    requires current == Run(nfa, text, start, start + |stack|)
    requires forall j :: 0 <= j < |stack| ==> stack[j] == Entry(nfa, text, start, start + |stack| - 1 - j)
    ensures reached == Run(nfa, text, start, start + |stack| + 1)
    ensures pushed == [(start, start + |stack|, reached)] + stack
    ensures forall j :: 0 <= j < |pushed| ==> pushed[j] == Entry(nfa, text, start, start + |pushed| - 1 - j)
  {
    var idx := start + |stack|;
    var stepped := MakeTransition(nfa.delta, current, text[idx]);
    reached := EpsilonClosure(nfa.delta, stepped);
    pushed := [(start, idx, reached)] + stack;
    forall j | 0 <= j < |pushed| ensures pushed[j] == Entry(nfa, text, start, start + |pushed| - 1 - j) {
      if j > 0 {
        assert pushed[j] == stack[j - 1];
      }
    }
  }

  /**
   * The loop of `get_next_token` that reads characters from `start`, pushing the state
   * set after each one onto the front of the stack, until the text ends or the state
   * set becomes empty.
   */
  method RecordPrefixes(nfa: NFA, text: string, start: nat) returns (stack: seq<(nat, nat, set<int>)>)
    requires start < |text|
    ensures Recorded(nfa, text, start, stack)
  {
    stack := [];
    var idx := start;
    var current := EpsilonClosure(nfa.delta, {nfa.initial});
    while idx != |text|
      invariant start <= idx <= |text| && |stack| == idx - start
      invariant current == Run(nfa, text, start, idx)
      invariant forall j :: 0 <= j < |stack| ==> stack[j] == Entry(nfa, text, start, start + |stack| - 1 - j)
      invariant forall j :: 0 <= j < |stack| ==> stack[j].2 != {}
      decreases |text| - idx
    {
      var reached;
      stack, reached := PushNext(nfa, text, start, stack, current);
      current := reached;
      if reached == {} {
        break;
      }
      idx := idx + 1;
    }
  }

  /** The ends past the last record are not accepted: the text ended or the states ran out. */
  lemma UnrecordedRejected(nfa: NFA, text: string, start: nat, stack: seq<(nat, nat, set<int>)>)
    requires Recorded(nfa, text, start, stack)
    ensures forall e :: start + |stack| <= e < |text| ==> !Accepting(nfa, text, start, e)
  {
    forall e | start + |stack| <= e < |text| ensures !Accepting(nfa, text, start, e) {
      assert stack[0].2 == Run(nfa, text, start, start + |stack|);
      RunStaysEmpty(nfa, text, start, start + |stack|, e + 1);
    }
  }

  /** `Iterator::min` on a set of states: the least one, or nothing for the empty set. */
  method MinState(s: set<int>) returns (m: Option<int>)
    ensures m.None? <==> s == {}
    ensures m.Some? ==> m.value in s && forall y :: y in s ==> m.value <= y
  {
    m := None;
    var rest := s;
    while exists x :: x in rest
      invariant rest <= s
      invariant m.None? ==> rest == s
      invariant m.Some? ==> m.value in s && forall y :: y in s && y !in rest ==> m.value <= y
      decreases rest
    {
      var x :| x in rest;
      if m.None? || x < m.value {
        m := Some(x);
      }
      rest := rest - {x};
    }
  }

  /**
   * The second loop of `get_next_token`: the records are searched from the front (the
   * longest token first) for one whose state set meets the final states, and the
   * smallest such final state is taken. This is the declarative token: the found record
   * is the longest accepted token, and finding none means no prefix is accepted.
   */
  method FirstMatch(nfa: NFA, text: string, start: nat, stack: seq<(nat, nat, set<int>)>)
    returns (m: Option<(nat, nat, int)>)
    requires Recorded(nfa, text, start, stack)
    ensures m.None? ==> Munch(nfa, text, start) == Unrecognised(start)
    ensures m.Some? ==> m.value.0 == start && Munch(nfa, text, start) == Matched(m.value.1, m.value.2)
  {
    UnrecordedRejected(nfa, text, start, stack);
    var j := 0;
    while j < |stack|
      invariant 0 <= j <= |stack|
      invariant forall e :: start + |stack| - j <= e < start + |stack| ==> !Accepting(nfa, text, start, e)
    {
      var (tokStart, tokEnd, states) := stack[j];
      var least := MinState(states * nfa.finals);
      if least.Some? {
        MatchIsMunch(nfa, text, start, stack, j, least.value);
        return Some((tokStart, tokEnd, least.value));
      }
      j := j + 1;
    }
    NoMatchIsMunch(nfa, text, start, stack);
    return None;
  }

  /** `LexemeStream`: a lexer, the characters of the text, and the start of the next token. */
  class LexemeStream<T> {
    const lexer: Lexer<T>
    const text: string
    var cursor: nat

    constructor (lexer: Lexer<T>, text: string)
      ensures this.lexer == lexer && this.text == text && cursor == 0
    {
      this.lexer := lexer;
      this.text := text;
      cursor := 0;
    }

    /**
     * The body of `get_next_token` past its boundary test: the action of the smallest
     * final state reached by the longest accepted token, applied to the token's text,
     * with the cursor moved past it; otherwise an error at the cursor, which moves on
     * by one.
     */
    method NextTokenAt() returns (tok: Result<T, LexError>)
      requires cursor < |text|
      requires lexer.nfa.finals <= lexer.bindings.Keys
      modifies this
      ensures var o := Munch(lexer.nfa, text, old(cursor));
        && cursor == NextCursor(o, old(cursor))
        && (o.Matched? ==> tok == Ok(lexer.bindings[o.final](text[old(cursor)..o.end + 1])))
        && (o.Unrecognised? ==> tok == Err(LexError(o.position)))
    {
      var start := cursor;
      var stack := RecordPrefixes(lexer.nfa, text, start);
      var m := FirstMatch(lexer.nfa, text, start, stack);
      if m.Some? {
        var (tokStart, tokEnd, f) := m.value;
        var lexeme := text[tokStart..tokEnd + 1];
        cursor := tokEnd + 1;
        return Ok(lexer.bindings[f](lexeme));
      }
      tok := Err(LexError(cursor));
      cursor := cursor + 1;
    }

    /**
     * `get_next_token`: nothing once the cursor reaches the last character (the test
     * against the length minus one, as written); otherwise one token or error.
     */
    method GetNextToken() returns (tok: Option<Result<T, LexError>>)
      requires |text| > 0
      requires lexer.nfa.finals <= lexer.bindings.Keys
      modifies this
      ensures var o := Scan(lexer.nfa, text, old(cursor));
        && cursor == NextCursor(o, old(cursor))
        && (o.EndOfStream? ==> tok.None?)
        && (o.Matched? ==> tok == Some(Ok(lexer.bindings[o.final](text[old(cursor)..o.end + 1]))))
        && (o.Unrecognised? ==> tok == Some(Err(LexError(o.position))))
    {
      if cursor >= |text| - 1 {
        return None;
      }
      var r := NextTokenAt();
      tok := Some(r);
    }

    /** `get_next_token` with the intended boundary test: nothing only once no character is left. */
    method GetNextTokenIntended() returns (tok: Option<Result<T, LexError>>)
      requires lexer.nfa.finals <= lexer.bindings.Keys
      modifies this
      ensures var o := ScanIntended(lexer.nfa, text, old(cursor));
        && cursor == NextCursor(o, old(cursor))
        && (o.EndOfStream? ==> tok.None?)
        && (o.Matched? ==> tok == Some(Ok(lexer.bindings[o.final](text[old(cursor)..o.end + 1]))))
        && (o.Unrecognised? ==> tok == Some(Err(LexError(o.position))))
    {
      if cursor >= |text| {
        return None;
      }
      var r := NextTokenAt();
      tok := Some(r);
    }

    /** `Iterator::next`: the next token of the stream. */
    method Next() returns (tok: Option<Result<T, LexError>>)
      requires |text| > 0
      requires lexer.nfa.finals <= lexer.bindings.Keys
      modifies this
      ensures var o := Scan(lexer.nfa, text, old(cursor));
        && cursor == NextCursor(o, old(cursor))
        && (o.EndOfStream? ==> tok.None?)
        && (o.Matched? ==> tok == Some(Ok(lexer.bindings[o.final](text[old(cursor)..o.end + 1]))))
        && (o.Unrecognised? ==> tok == Some(Err(LexError(o.position))))
    {
      tok := GetNextToken();
    }
  }

  /**
   * The first record, from the front, whose state set meets the final states gives
   * the declarative token: its end is the longest match and `f` is the smallest final
   * state it reaches.
   */
  lemma MatchIsMunch(nfa: NFA, text: string, start: nat, stack: seq<(nat, nat, set<int>)>, j: nat, f: int)
    requires Recorded(nfa, text, start, stack) && j < |stack|
    requires forall e :: start + |stack| <= e < |text| ==> !Accepting(nfa, text, start, e)
    requires forall e :: start + |stack| - j <= e < start + |stack| ==> !Accepting(nfa, text, start, e)
    requires f in stack[j].2 * nfa.finals && forall y :: y in stack[j].2 * nfa.finals ==> f <= y
    ensures Munch(nfa, text, start) == Matched(stack[j].1, f)
  {
    var e := stack[j].1;
    assert stack[j].2 * nfa.finals == FinalsReached(nfa, text, start, e);
    assert Accepting(nfa, text, start, e);
    assert e == start + |stack| - 1 - j;
  }

  /** When no record meets the final states, the declarative token is an error. */
  lemma NoMatchIsMunch(nfa: NFA, text: string, start: nat, stack: seq<(nat, nat, set<int>)>)
    requires Recorded(nfa, text, start, stack)
    requires forall e :: start + |stack| <= e < |text| ==> !Accepting(nfa, text, start, e)
    requires forall e :: start <= e < start + |stack| ==> !Accepting(nfa, text, start, e)
    ensures Munch(nfa, text, start) == Unrecognised(start)
  {
  }

  /**
   * For a compiled lexer, the action a matched token gets is that of the earliest
   * pattern whose final state the longest token reaches: of patterns matching the same
   * longest token, the one added first wins.
   */
  lemma EarliestPatternActs<T>(patterns: seq<(Regex, string -> T)>, lx: Lexer<T>, parts: seq<NFA>,
                               bounds: seq<int>, text: string, cursor: nat)
    requires Compiled(patterns, lx, parts, bounds) && cursor < |text|
    requires Munch(lx.nfa, text, cursor).Matched?
    ensures var o := Munch(lx.nfa, text, cursor);
      exists i :: 0 <= i < |patterns| && o.final == Exit(bounds, i) && lx.bindings[o.final] == patterns[i].1
        && forall j :: 0 <= j < |patterns| && Exit(bounds, j) in Run(lx.nfa, text, cursor, o.end + 1) ==> i <= j
  {
    var o := Munch(lx.nfa, text, cursor);
    var reached := FinalsReached(lx.nfa, text, cursor, o.end);
    assert forall g :: g in Run(lx.nfa, text, cursor, o.end + 1) && g in lx.nfa.finals ==> g in reached;
    EarliestPatternWins(patterns, lx, parts, bounds, Run(lx.nfa, text, cursor, o.end + 1), o.final);
  }

  /** `Lexer::lexemes`: a stream over the characters of `text`, starting at the first one. */
  method Lexemes<T>(lx: Lexer<T>, text: string) returns (s: LexemeStream<T>)
    ensures fresh(s) && s.lexer == lx && s.text == text && s.cursor == 0
  {
    s := new LexemeStream(lx, text);
  }
}
