/**
 * What the glued automaton of `Lexer::new` (src/lexer.rs, `glue_nfas` in src/nfa.rs)
 * recognises: seen from the states of one pattern, running the glued automaton is
 * running that pattern's own automaton, so a token is accepted exactly when some
 * pattern accepts it. The one exception is a token that starts with the character of
 * code 127, which `make_transition` reads along the start state's ε-edges.
 */
module GluedRuns {
  import opened Transitions
  import opened RegexSyntax
  import opened Nfa
  import opened Lexing
  import opened Scanning

  /** On the sources `[lo, hi)` the tables `delta` and `d` have the same keys and the same successors. */
  ghost predicate Agrees(delta: Delta, d: Delta, lo: int, hi: int) {
    forall s, c :: lo <= s < hi ==>
      ((s, c) in delta <==> (s, c) in d) && ((s, c) in d ==> delta[(s, c)] == d[(s, c)])
  }

  /** Every key of `d` leaves a state of `[lo, hi)` and every edge of `d` leads into it. */
  ghost predicate Owned(d: Delta, lo: int, hi: int) {
    && (forall s, c :: (s, c) in d ==> lo <= s < hi)
    && (forall s, c, t :: (s, c) in d && t in d[(s, c)] ==> lo <= t < hi)
  }

  /**
   * The only edges of `delta` that enter `[lo, hi)` from outside are ε-edges of
   * `gate`, a state outside the range that no edge enters.
   */
  ghost predicate Gated(delta: Delta, lo: int, hi: int, gate: int) {
    && !(lo <= gate < hi)
    && (forall s, c, t :: (s, c) in delta && t in delta[(s, c)] && lo <= t < hi && !(lo <= s < hi) ==>
          s == gate && c == EPSILON_CHR)
    && (forall s, c, t :: (s, c) in delta && t in delta[(s, c)] ==> t != gate)
  }

  /**
   * The automaton `a` holds the automaton `p` on the states `[lo, hi)`: it agrees with
   * `p` there, is entered only from its own initial state, and that initial state has an
   * ε-edge to `p`'s initial state and to no other state of the range.
   */
  ghost predicate Contains(a: NFA, p: NFA, lo: int, hi: int) {
    && Agrees(a.delta, p.delta, lo, hi) && Owned(p.delta, lo, hi) && Gated(a.delta, lo, hi, a.initial)
    && lo <= p.initial < hi
    && (a.initial, EPSILON_CHR) in a.delta
    && p.initial in a.delta[(a.initial, EPSILON_CHR)]
    && (forall s :: s in a.delta[(a.initial, EPSILON_CHR)] && lo <= s < hi ==> s == p.initial)
  }

  /** The states of `from` in `[lo, hi)`. */
  ghost function Within(from: set<int>, lo: int, hi: int): set<int> {
    set s | s in from && lo <= s < hi
  }

  /** A closure holds only its input states and targets of ε-edges. */
  lemma ClosureSources(delta: Delta, from: set<int>, t: int)
    requires t in Closure(delta, from) && t !in from
    ensures exists s :: (s, EPSILON_CHR) in delta && t in delta[(s, EPSILON_CHR)]
  {
    assert t in EpsTargets(delta);
    var k :| k in delta && k.1 == EPSILON_CHR && t in delta[k];
    var (s, c) := k;
    assert (s, EPSILON_CHR) in delta && t in delta[(s, EPSILON_CHR)];
  }

  /**
   * An ε-path of `delta` that ends in `[lo, hi)` and does not start at the gate stays
   * in the range and is an ε-path of `d`.
   */
  lemma {:induction false} PathInPart(delta: Delta, d: Delta, lo: int, hi: int, gate: int, p: seq<int>)
    requires Agrees(delta, d, lo, hi) && Gated(delta, lo, hi, gate)
    requires EpsPath(delta, p) && lo <= p[|p| - 1] < hi && p[0] != gate
    ensures EpsPath(d, p) && lo <= p[0] < hi
    decreases |p|
  {
    var n := |p|;
    if n > 1 {
      var q := p[..n - 1];
      assert EpsEdge(delta, p[n - 2], p[n - 1]);
      assert p[n - 2] != gate by {
        if n - 2 > 0 {
          assert EpsEdge(delta, p[n - 3], p[n - 2]);
        }
      }
      assert EpsPath(delta, q) by {
        forall i | 0 <= i < |q| - 1 ensures EpsEdge(delta, q[i], q[i + 1]) {
          assert EpsEdge(delta, p[i], p[i + 1]);
        }
      }
      PathInPart(delta, d, lo, hi, gate, q);
      forall i | 0 <= i < n - 1 ensures EpsEdge(d, p[i], p[i + 1]) {
        if i < n - 2 {
          assert EpsEdge(d, q[i], q[i + 1]);
        }
      }
    }
  }

  /** An ε-path of `d` is an ε-path of `delta` when `d` is `delta`'s part on its own range. */
  lemma PathFromPart(delta: Delta, d: Delta, lo: int, hi: int, p: seq<int>)
    requires Agrees(delta, d, lo, hi) && Owned(d, lo, hi)
    requires EpsPath(d, p)
    ensures EpsPath(delta, p)
  {
    forall i | 0 <= i < |p| - 1 ensures EpsEdge(delta, p[i], p[i + 1]) {
      assert EpsEdge(d, p[i], p[i + 1]);
    }
  }

  /**
   * Seen from `[lo, hi)`, the ε-closure in `delta` of states other than the gate is the
   * ε-closure in `d` of those of them that lie in the range.
   */
  lemma ClosureLocal(delta: Delta, d: Delta, lo: int, hi: int, gate: int, from: set<int>, t: int)
    requires Agrees(delta, d, lo, hi) && Owned(d, lo, hi) && Gated(delta, lo, hi, gate)
    requires gate !in from && lo <= t < hi
    ensures t in Closure(delta, from) <==> t in Closure(d, Within(from, lo, hi))
  {
    var inside := Within(from, lo, hi);
    ClosureIsReachability(delta, from, t);
    ClosureIsReachability(d, inside, t);
    if t in Closure(delta, from) {
      var p :| EpsPath(delta, p) && p[0] in from && p[|p| - 1] == t;
      PathInPart(delta, d, lo, hi, gate, p);
      assert p[0] in inside;
    }
    if t in Closure(d, inside) {
      var p :| EpsPath(d, p) && p[0] in inside && p[|p| - 1] == t;
      PathFromPart(delta, d, lo, hi, p);
    }
  }

  /**
   * Seen from `[lo, hi)`, a step of `delta` on `c` is a step of `d` from the states in
   * the range, unless `c` is the ε symbol and the gate is among the states.
   */
  lemma StepLocal(delta: Delta, d: Delta, lo: int, hi: int, gate: int, from: set<int>, c: char, t: int)
    requires Agrees(delta, d, lo, hi) && Owned(d, lo, hi) && Gated(delta, lo, hi, gate)
    requires c != EPSILON_CHR || gate !in from
    requires lo <= t < hi
    ensures t in Step(delta, from, c) <==> t in Step(d, Within(from, lo, hi), c)
  {
    var inside := Within(from, lo, hi);
    if t in Step(delta, from, c) {
      var s :| s in from && (s, c) in delta && t in delta[(s, c)];
      assert lo <= s < hi;
      assert s in inside && (s, c) in d && t in d[(s, c)];
    }
    if t in Step(d, inside, c) {
      var s :| s in inside && (s, c) in d && t in d[(s, c)];
      assert s in from && (s, c) in delta && t in delta[(s, c)];
    }
  }

  /** From the glue state, the ε-closure is the glue state and the closure of its successors. */
  lemma ClosureThroughGate(delta: Delta, gate: int, t: int)
    requires (gate, EPSILON_CHR) in delta
    requires forall s, c, u :: (s, c) in delta && u in delta[(s, c)] ==> u != gate
    requires t != gate
    ensures t in Closure(delta, {gate}) <==> t in Closure(delta, delta[(gate, EPSILON_CHR)])
  {
    var next := delta[(gate, EPSILON_CHR)];
    ClosureIsReachability(delta, {gate}, t);
    ClosureIsReachability(delta, next, t);
    if t in Closure(delta, {gate}) {
      var p :| EpsPath(delta, p) && p[0] in {gate} && p[|p| - 1] == t;
      assert EpsEdge(delta, p[0], p[1]);
      var q := p[1..];
      assert EpsPath(delta, q) by {
        forall i | 0 <= i < |q| - 1 ensures EpsEdge(delta, q[i], q[i + 1]) {
          assert EpsEdge(delta, p[i + 1], p[i + 2]);
        }
      }
      assert q[0] in next && q[|q| - 1] == t;
    }
    if t in Closure(delta, next) {
      var q :| EpsPath(delta, q) && q[0] in next && q[|q| - 1] == t;
      var p := [gate] + q;
      assert EpsEdge(delta, gate, q[0]);
      assert EpsPath(delta, p) by {
        forall i | 0 <= i < |p| - 1 ensures EpsEdge(delta, p[i], p[i + 1]) {
          if i > 0 {
            assert EpsEdge(delta, q[i - 1], q[i]);
          }
        }
      }
    }
  }

  /**
   * Reading a text into an automaton `a` that contains `p` on `[lo, hi)`: the states of
   * `p`'s run lie in the range, and there `a`'s run and `p`'s run hold the same states,
   * provided the text does not start with the ε symbol. After the first character the
   * glue state has been left for good.
   */
  lemma {:induction false} RunLocal(a: NFA, p: NFA, lo: int, hi: int, text: string, start: nat, end: nat)
    requires Contains(a, p, lo, hi) && start <= end <= |text|
    requires start < end ==> text[start] != EPSILON_CHR
    ensures forall t :: t in Run(p, text, start, end) ==> lo <= t < hi
    ensures forall t :: lo <= t < hi ==> (t in Run(a, text, start, end) <==> t in Run(p, text, start, end))
    ensures start < end ==> a.initial !in Run(a, text, start, end)
    decreases end - start
  {
    var g := a.initial;
    if end == start {
      forall t | t in Run(p, text, start, end) ensures lo <= t < hi {
        if t != p.initial {
          ClosureSources(p.delta, {p.initial}, t);
        }
      }
      forall t | lo <= t < hi ensures t in Run(a, text, start, end) <==> t in Run(p, text, start, end) {
        var next := a.delta[(g, EPSILON_CHR)];
        ClosureThroughGate(a.delta, g, t);
        ClosureLocal(a.delta, p.delta, lo, hi, g, next, t);
        assert Within(next, lo, hi) == {p.initial};
      }
    } else {
      RunLocal(a, p, lo, hi, text, start, end - 1);
      var c := text[end - 1];
      var prevA, prevP := Run(a, text, start, end - 1), Run(p, text, start, end - 1);
      assert Within(prevA, lo, hi) == prevP;
      assert c != EPSILON_CHR || g !in prevA;
      var stepA, stepP := Step(a.delta, prevA, c), Step(p.delta, prevP, c);
      assert g !in stepA;
      forall t | t in stepP ensures lo <= t < hi {
        var s :| s in prevP && (s, c) in p.delta && t in p.delta[(s, c)];
      }
      assert Within(stepA, lo, hi) == stepP by {
        forall t | lo <= t < hi ensures t in stepA <==> t in stepP {
          StepLocal(a.delta, p.delta, lo, hi, g, prevA, c, t);
        }
      }
      forall t | t in Run(p, text, start, end) ensures lo <= t < hi {
        if t !in stepP {
          ClosureSources(p.delta, stepP, t);
        }
      }
      forall t | lo <= t < hi ensures t in Run(a, text, start, end) <==> t in Run(p, text, start, end) {
        ClosureLocal(a.delta, p.delta, lo, hi, g, stepA, t);
      }
      if g in Run(a, text, start, end) {
        ClosureSources(a.delta, stepA, g);
      }
    }
  }

  /** A key of a compiled lexer's table is the glue key or a key of exactly the pattern whose states it leaves. */
  lemma GluedKeyOwner<T>(patterns: seq<(Regex, string -> T)>, lx: Lexer<T>, parts: seq<NFA>, bounds: seq<int>,
                         s: int, c: char)
    requires Compiled(patterns, lx, parts, bounds)
    requires (s, c) in lx.nfa.delta && !(s == lx.nfa.initial && c == EPSILON_CHR)
    ensures exists j :: 0 <= j < |parts| && (s, c) in parts[j].delta && bounds[j] <= s < bounds[j + 1]
                        && lx.nfa.delta[(s, c)] == parts[j].delta[(s, c)]
                        && PartLaid(parts[j], bounds[j], bounds[j + 1])
  {
    LayoutDisjoint(parts, bounds);
    GluedTable(parts, lx.nfa.initial, lx.nfa.delta);
    var j :| 0 <= j < |parts| && (s, c) in parts[j].delta;
    assert PartLaid(parts[j], bounds[j], bounds[j + 1]);
  }

  /** The ranges of two different patterns do not overlap. */
  lemma RangesApart(parts: seq<NFA>, bounds: seq<int>, i: int, j: int, s: int)
    requires Layout(parts, bounds) && 0 <= i < |parts| && 0 <= j < |parts|
    requires bounds[i] <= s < bounds[i + 1] && bounds[j] <= s < bounds[j + 1]
    ensures i == j
  {
  }

  /** A compiled lexer's automaton contains the automaton of each pattern on that pattern's states. */
  lemma CompiledContains<T>(patterns: seq<(Regex, string -> T)>, lx: Lexer<T>, parts: seq<NFA>, bounds: seq<int>,
                            i: int)
    requires Compiled(patterns, lx, parts, bounds) && 0 <= i < |parts|
    ensures Contains(lx.nfa, parts[i], bounds[i], bounds[i + 1])
  {
    var n, d, lo, hi, g := |parts|, lx.nfa.delta, bounds[i], bounds[i + 1], lx.nfa.initial;
    GluedLexerTable(patterns, lx, parts, bounds);
    assert PartLaid(parts[i], lo, hi);
    assert i + 1 == n || hi < bounds[n];
    assert Agrees(d, parts[i].delta, lo, hi) by {
      forall s, c | lo <= s < hi && (s, c) in d
        ensures (s, c) in parts[i].delta && d[(s, c)] == parts[i].delta[(s, c)]
      {
        GluedKeyOwner(patterns, lx, parts, bounds, s, c);
        var j :| 0 <= j < n && (s, c) in parts[j].delta && bounds[j] <= s < bounds[j + 1]
                 && d[(s, c)] == parts[j].delta[(s, c)];
        RangesApart(parts, bounds, i, j, s);
      }
    }
    assert Gated(d, lo, hi, g) by {
      forall s, c, t | (s, c) in d && t in d[(s, c)] && lo <= t < hi && !(lo <= s < hi)
        ensures s == g && c == EPSILON_CHR
      {
        if !(s == g && c == EPSILON_CHR) {
          GluedKeyOwner(patterns, lx, parts, bounds, s, c);
          var j :| 0 <= j < n && (s, c) in parts[j].delta && bounds[j] <= s < bounds[j + 1]
                   && d[(s, c)] == parts[j].delta[(s, c)]
                   && PartLaid(parts[j], bounds[j], bounds[j + 1]);
          RangesApart(parts, bounds, i, j, t);
        }
      }
    }
    InitialsMember(parts, parts[i].initial);
    forall s | s in d[(g, EPSILON_CHR)] && lo <= s < hi ensures s == parts[i].initial {
      InitialsMember(parts, s);
      var j :| 0 <= j < n && parts[j].initial == s;
      assert PartLaid(parts[j], bounds[j], bounds[j + 1]);
      RangesApart(parts, bounds, i, j, s);
    }
  }

  /**
   * Running a compiled lexer on a token that does not start with the ε symbol: on the
   * states of pattern `i`, and in particular at its final state, the glued automaton
   * holds exactly the states that pattern `i`'s own automaton holds.
   */
  lemma GluedRunsPart<T>(patterns: seq<(Regex, string -> T)>, lx: Lexer<T>, parts: seq<NFA>, bounds: seq<int>,
                         text: string, start: nat, end: nat, i: int)
    requires Compiled(patterns, lx, parts, bounds) && 0 <= i < |parts|
    requires start <= end <= |text| && (start < end ==> text[start] != EPSILON_CHR)
    ensures forall t :: bounds[i] <= t < bounds[i + 1] ==>
      (t in Run(lx.nfa, text, start, end) <==> t in Run(parts[i], text, start, end))
    ensures Exit(bounds, i) in Run(lx.nfa, text, start, end) <==> Exit(bounds, i) in Run(parts[i], text, start, end)
  {
    CompiledContains(patterns, lx, parts, bounds, i);
    RunLocal(lx.nfa, parts[i], bounds[i], bounds[i + 1], text, start, end);
    assert PartLaid(parts[i], bounds[i], bounds[i + 1]);
  }

  /** Each final state the glued automaton reaches is the final state of a pattern that accepts the token. */
  lemma GluedFinalFromPart<T>(patterns: seq<(Regex, string -> T)>, lx: Lexer<T>, parts: seq<NFA>,
                              bounds: seq<int>, text: string, start: nat, end: nat, f: int)
    requires Compiled(patterns, lx, parts, bounds)
    requires start <= end < |text| && text[start] != EPSILON_CHR
    requires f in FinalsReached(lx.nfa, text, start, end)
    ensures exists i :: 0 <= i < |parts| && f == Exit(bounds, i) && Accepting(parts[i], text, start, end)
  {
    AllFinalsMember(parts, f);
    var i :| 0 <= i < |parts| && f in parts[i].finals;
    assert PartLaid(parts[i], bounds[i], bounds[i + 1]);
    GluedRunsPart(patterns, lx, parts, bounds, text, start, end + 1, i);
    assert f in FinalsReached(parts[i], text, start, end);
  }

  /** A final state a pattern's own automaton reaches is reached by the glued automaton too. */
  lemma PartFinalInGlued<T>(patterns: seq<(Regex, string -> T)>, lx: Lexer<T>, parts: seq<NFA>,
                            bounds: seq<int>, text: string, start: nat, end: nat, i: int, f: int)
    requires Compiled(patterns, lx, parts, bounds) && 0 <= i < |parts|
    requires start <= end < |text| && text[start] != EPSILON_CHR
    requires f in FinalsReached(parts[i], text, start, end)
    ensures f == Exit(bounds, i) && f in FinalsReached(lx.nfa, text, start, end)
  {
    assert PartLaid(parts[i], bounds[i], bounds[i + 1]);
    GluedRunsPart(patterns, lx, parts, bounds, text, start, end + 1, i);
    AllFinalsMember(parts, f);
  }

  /**
   * A token that does not start with the ε symbol is accepted by a compiled lexer if and
   * only if some pattern's own automaton accepts it; each final state the glued
   * automaton reaches is the final state of a pattern that accepts the token.
   */
  lemma GluedAcceptsIffSomePart<T>(patterns: seq<(Regex, string -> T)>, lx: Lexer<T>, parts: seq<NFA>,
                                   bounds: seq<int>, text: string, start: nat, end: nat)
    requires Compiled(patterns, lx, parts, bounds)
    requires start <= end < |text| && text[start] != EPSILON_CHR
    ensures Accepting(lx.nfa, text, start, end) <==>
      exists i :: 0 <= i < |parts| && Accepting(parts[i], text, start, end)
    ensures forall f :: f in FinalsReached(lx.nfa, text, start, end) ==>
      exists i :: 0 <= i < |parts| && f == Exit(bounds, i) && Accepting(parts[i], text, start, end)
  {
    forall f | f in FinalsReached(lx.nfa, text, start, end)
      ensures exists i :: 0 <= i < |parts| && f == Exit(bounds, i) && Accepting(parts[i], text, start, end)
    {
      GluedFinalFromPart(patterns, lx, parts, bounds, text, start, end, f);
    }
    if exists i :: 0 <= i < |parts| && Accepting(parts[i], text, start, end) {
      var i :| 0 <= i < |parts| && Accepting(parts[i], text, start, end);
      var f :| f in FinalsReached(parts[i], text, start, end);
      PartFinalInGlued(patterns, lx, parts, bounds, text, start, end, i, f);
    }
  }

  /**
   * The token cut by maximal munch from a position whose character is not the ε symbol,
   * read through the patterns' own automata: some token is matched if and only if some
   * pattern accepts some prefix, and no pattern accepts a prefix longer than the token.
   */
  lemma MunchByParts<T>(patterns: seq<(Regex, string -> T)>, lx: Lexer<T>, parts: seq<NFA>, bounds: seq<int>,
                        text: string, cursor: nat)
    requires Compiled(patterns, lx, parts, bounds) && cursor < |text| && text[cursor] != EPSILON_CHR
    ensures Munch(lx.nfa, text, cursor).Matched? <==>
      exists i, e :: 0 <= i < |parts| && cursor <= e < |text| && Accepting(parts[i], text, cursor, e)
    ensures var o := Munch(lx.nfa, text, cursor);
      o.Matched? ==> forall j, e :: 0 <= j < |parts| && o.end < e < |text| ==> !Accepting(parts[j], text, cursor, e)
  {
    var o := Munch(lx.nfa, text, cursor);
    if o.Matched? {
      GluedAcceptsIffSomePart(patterns, lx, parts, bounds, text, cursor, o.end);
      var i :| 0 <= i < |parts| && Accepting(parts[i], text, cursor, o.end);
      forall j, e | 0 <= j < |parts| && o.end < e < |text| ensures !Accepting(parts[j], text, cursor, e) {
        GluedAcceptsIffSomePart(patterns, lx, parts, bounds, text, cursor, e);
      }
    } else {
      forall i, e | 0 <= i < |parts| && cursor <= e < |text| ensures !Accepting(parts[i], text, cursor, e) {
        GluedAcceptsIffSomePart(patterns, lx, parts, bounds, text, cursor, e);
      }
    }
  }

  /** Two patterns with the same final state are the same pattern. */
  lemma ExitsApart(parts: seq<NFA>, bounds: seq<int>, i: int, j: int)
    requires Layout(parts, bounds) && 0 <= i < |parts| && 0 <= j < |parts|
    requires Exit(bounds, i) == Exit(bounds, j)
    ensures i == j
  {
  }

  /**
   * The token maximal munch matches gets the final state and the action of the earliest
   * pattern whose own automaton accepts it: that pattern accepts the token and no
   * pattern added before it does.
   */
  lemma MunchEarliestPart<T>(patterns: seq<(Regex, string -> T)>, lx: Lexer<T>, parts: seq<NFA>, bounds: seq<int>,
                             text: string, cursor: nat)
    requires Compiled(patterns, lx, parts, bounds) && cursor < |text| && text[cursor] != EPSILON_CHR
    requires Munch(lx.nfa, text, cursor).Matched?
    ensures var o := Munch(lx.nfa, text, cursor);
      exists i :: 0 <= i < |parts| && o.final == Exit(bounds, i) && Accepting(parts[i], text, cursor, o.end)
        && lx.bindings[o.final] == patterns[i].1
        && forall j :: 0 <= j < i ==> !Accepting(parts[j], text, cursor, o.end)
  {
    var o := Munch(lx.nfa, text, cursor);
    EarliestPatternActs(patterns, lx, parts, bounds, text, cursor);
    var i :| 0 <= i < |patterns| && o.final == Exit(bounds, i) && lx.bindings[o.final] == patterns[i].1
             && forall j :: 0 <= j < |patterns| && Exit(bounds, j) in Run(lx.nfa, text, cursor, o.end + 1) ==> i <= j;
    GluedFinalFromPart(patterns, lx, parts, bounds, text, cursor, o.end, o.final);
    var k :| 0 <= k < |parts| && o.final == Exit(bounds, k) && Accepting(parts[k], text, cursor, o.end);
    ExitsApart(parts, bounds, i, k);
    forall j | 0 <= j < i ensures !Accepting(parts[j], text, cursor, o.end) {
      if Accepting(parts[j], text, cursor, o.end) {
        var f :| f in FinalsReached(parts[j], text, cursor, o.end);
        PartFinalInGlued(patterns, lx, parts, bounds, text, cursor, o.end, j, f);
        assert false;
      }
    }
  }

  /** The text of the character of code 127 followed by `b`. */
  function EpsilonThenB(): string {
    [EPSILON_CHR, 'b']
  }

  /**
   * The automaton of every lexer of the single pattern `Char('b')` (`SingleCharLexer`)
   * reads the character of code 127 along the glue state's ε-edge into the pattern, and
   * then accepts `b`.
   */
  lemma GluedReadsEpsilonChar()
    ensures Accepting(SingleChar('b'), EpsilonThenB(), 0, 1)
  {
    TwoEdgesAccept(SingleChar('b'), EpsilonThenB(), 0, 1);
  }

  /** A two-character text read along an edge from the initial state and then an edge into a final state is accepted. */
  lemma TwoEdgesAccept(nfa: NFA, text: string, mid: int, last: int)
    requires |text| == 2 && last in nfa.finals
    requires (nfa.initial, text[0]) in nfa.delta && mid in nfa.delta[(nfa.initial, text[0])]
    requires (mid, text[1]) in nfa.delta && last in nfa.delta[(mid, text[1])]
    ensures Accepting(nfa, text, 0, 1)
  {
    ClosureContainsInput(nfa.delta, {nfa.initial});
    EdgeTaken(nfa, text, 0, 0, nfa.initial, mid);
    EdgeTaken(nfa, text, 0, 1, mid, last);
    assert last in FinalsReached(nfa, text, 0, 1);
  }

  /** The automaton of the pattern `Char('b')` on its own rejects that text at its first character. */
  lemma PartRejectsEpsilonChar()
    ensures !Accepting(NFA(map[(0, 'b') := {1}], 0, {1}), EpsilonThenB(), 0, 1)
  {
    var part, text := NFA(map[(0, 'b') := {1}], 0, {1}), EpsilonThenB();
    ClosureIsLeast(part.delta, {0}, {0});
    StepOfOne(part.delta, 0, EPSILON_CHR);
    assert Run(part, text, 0, 0) <= {0};
    assert Step(part.delta, Run(part, text, 0, 0), EPSILON_CHR) == {};
    ClosureOfEmpty(part.delta);
    assert Run(part, text, 0, 1) == {};
    RunStaysEmpty(part, text, 0, 1, 2);
  }
}
