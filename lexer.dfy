/**
 * Building a lexer (src/lexer.rs, `LexerBuilder` and `Lexer::new`): every pattern is
 * normalised, compiled with one shared state counter starting at 0, its final state is
 * bound to the pattern's action, and the per-pattern automata are glued under a new
 * start state numbered after all of them.
 */
module Lexing {
  import opened Wrappers
  import opened Transitions
  import opened RegexSyntax
  import opened Nfa
  import opened Thompson

  /** A compiled lexer: the glued automaton and the action bound to each final state. */
  datatype Lexer<T> = Lexer(nfa: NFA, bindings: map<int, string -> T>)

  /** The name table and the patterns, in the order they were added. */
  datatype LexerBuilder<T> = LexerBuilder(names: NamesList, patterns: seq<(Regex, string -> T)>)

  /** `LexerBuilder::from_names`: a builder with no patterns yet. */
  function FromNames<T>(names: NamesList): (b: LexerBuilder<T>)
    ensures b.names == names && |b.patterns| == 0
  {
    LexerBuilder(names, [])
  }

  /**
   * `add_pattern`: the pattern goes to the back, so every pattern added before keeps
   * its position and, with it, its priority in a tie.
   */
  function AddPattern<T>(b: LexerBuilder<T>, reg: Regex, action: string -> T): (b2: LexerBuilder<T>)
    ensures b2.names == b.names
    ensures |b2.patterns| == |b.patterns| + 1 && b2.patterns[..|b.patterns|] == b.patterns
    ensures b2.patterns[|b.patterns|] == (reg, action)
  {
    LexerBuilder(b.names, b.patterns + [(reg, action)])
  }

  /** The final state of pattern `i`: the last state of its range. */
  function Exit(bounds: seq<int>, i: int): int
    requires 0 <= i < |bounds| - 1
  {
    bounds[i + 1] - 1
  }

  /**
   * The automaton of one pattern compiled with the counter at `lo` and leaving it at
   * `hi`: it starts at `lo`, its single final state is `hi - 1`, its keys leave states
   * of `[lo, hi - 1)` and its edges lead into `(lo, hi)`.
   */
  ghost predicate PartLaid(nfa: NFA, lo: int, hi: int) {
    && nfa.initial == lo && nfa.finals == {hi - 1} && lo < hi - 1
    && (forall s, c :: (s, c) in nfa.delta ==> lo <= s < hi - 1)
    && (forall s, c, t :: (s, c) in nfa.delta && t in nfa.delta[(s, c)] ==> lo < t < hi)
  }

  /**
   * How the patterns' automata sit in the state space: pattern `i` owns the states
   * `[bounds[i], bounds[i + 1])`, and the ranges follow each other in pattern order.
   */
  ghost predicate Layout(parts: seq<NFA>, bounds: seq<int>) {
    && |bounds| == |parts| + 1
    && bounds[0] == 0
    && (forall i, j :: 0 <= i < j < |bounds| ==> bounds[i] < bounds[j])
    && (forall i :: 0 <= i < |parts| ==> PartLaid(parts[i], bounds[i], bounds[i + 1]))
  }

  /** The final states of the patterns, one per pattern. */
  ghost function PatternFinals(bounds: seq<int>): set<int> {
    set j | 0 <= j < |bounds| - 1 :: Exit(bounds, j)
  }

  lemma PatternFinalsSnoc(bounds: seq<int>, c: int)
    requires |bounds| >= 1
    ensures PatternFinals(bounds + [c]) == PatternFinals(bounds) + {c - 1}
  {
    var b2 := bounds + [c];
    forall x | x in PatternFinals(b2) ensures x in PatternFinals(bounds) + {c - 1} {
      var j :| 0 <= j < |b2| - 1 && x == Exit(b2, j);
      if j < |bounds| - 1 {
        assert Exit(b2, j) == Exit(bounds, j);
      }
    }
    forall x | x in PatternFinals(bounds) + {c - 1} ensures x in PatternFinals(b2) {
      if x == c - 1 {
        assert Exit(b2, |bounds| - 1) == x;
      } else {
        var j :| 0 <= j < |bounds| - 1 && x == Exit(bounds, j);
        assert Exit(b2, j) == x;
      }
    }
  }

  /** Compiling one more pattern from the current counter extends the layout. */
  lemma LayoutExtend(parts: seq<NFA>, bounds: seq<int>, nfa: NFA, next: int)
    requires Layout(parts, bounds)
    requires PartLaid(nfa, bounds[|parts|], next)
    ensures Layout(parts + [nfa], bounds + [next])
  {
    var p2, b2 := parts + [nfa], bounds + [next];
    var n := |parts|;
    forall i, j | 0 <= i < j < |b2| ensures b2[i] < b2[j] {
      if j == n + 1 && i < n {
        assert bounds[i] < bounds[n];
      }
    }
    forall i | 0 <= i < |p2| ensures PartLaid(p2[i], b2[i], b2[i + 1]) {
      if i < n {
        assert p2[i] == parts[i] && b2[i] == bounds[i] && b2[i + 1] == bounds[i + 1];
      }
    }
  }

  /** With the layout, the tables are pairwise disjoint and none has the glue key. */
  lemma LayoutDisjoint(parts: seq<NFA>, bounds: seq<int>)
    requires Layout(parts, bounds)
    ensures DisjointKeys(parts)
    ensures forall i :: 0 <= i < |parts| ==> (bounds[|parts|], EPSILON_CHR) !in parts[i].delta
  {
    forall i, j, k | 0 <= i < j < |parts| && k in parts[i].delta ensures k !in parts[j].delta {
      var (s, c) := k;
      assert PartLaid(parts[i], bounds[i], bounds[i + 1]) && PartLaid(parts[j], bounds[j], bounds[j + 1]);
      assert i + 1 == j || bounds[i + 1] < bounds[j];
    }
    forall i | 0 <= i < |parts| ensures (bounds[|parts|], EPSILON_CHR) !in parts[i].delta {
      assert PartLaid(parts[i], bounds[i], bounds[i + 1]);
      assert i + 1 == |parts| || bounds[i + 1] < bounds[|parts|];
    }
  }

  /**
   * The loop of `Lexer::new` that inserts the action for every final state of a
   * pattern's automaton; that automaton has the single final state `last`.
   */
  method Bind<T>(bindings: map<int, string -> T>, finals: set<int>, action: string -> T, ghost last: int)
    returns (b: map<int, string -> T>)
    requires finals == {last}
    ensures b == bindings[last := action]
  {
    b := bindings;
    var rest := finals;
    while exists s :: s in rest
      invariant (rest == finals && b == bindings) || (rest == {} && b == bindings[last := action])
      decreases rest
    {
      var state :| state in rest;
      b := b[state := action];
      rest := rest - {state};
    }
  }

  /**
   * The state of the loop of `Lexer::new` after the first `|nfas|` patterns: their
   * automata are laid out one after the other, and the bound states are exactly their
   * final states, each bound to its pattern's action.
   */
  ghost predicate Progress<T>(patterns: seq<(Regex, string -> T)>, nfas: seq<NFA>, bounds: seq<int>,
                              bindings: map<int, string -> T>) {
    && |nfas| <= |patterns|
    && Layout(nfas, bounds)
    && bindings.Keys == AllFinals(nfas) == PatternFinals(bounds)
    && (forall i :: 0 <= i < |nfas| ==> bindings[Exit(bounds, i)] == patterns[i].1)
  }

  /** One more compiled pattern, bound to its action, keeps the loop's state. */
  lemma ProgressStep<T>(patterns: seq<(Regex, string -> T)>, nfas: seq<NFA>, bounds: seq<int>,
                        bindings: map<int, string -> T>, nfa: NFA, next: int)
    requires Progress(patterns, nfas, bounds, bindings) && |nfas| < |patterns|
    requires PartLaid(nfa, bounds[|nfas|], next)
    ensures Progress(patterns, nfas + [nfa], bounds + [next], bindings[next - 1 := patterns[|nfas|].1])
  {
    var n := |nfas|;
    var p2, b2, m2 := nfas + [nfa], bounds + [next], bindings[next - 1 := patterns[n].1];
    LayoutExtend(nfas, bounds, nfa, next);
    PatternFinalsSnoc(bounds, next);
    assert p2[..n] == nfas;
    assert m2.Keys == AllFinals(p2) == PatternFinals(b2);
    ActionsKept(patterns, nfas, bounds, bindings, next);
  }

  /** Binding the new final state leaves the earlier patterns' actions in place. */
  lemma ActionsKept<T>(patterns: seq<(Regex, string -> T)>, nfas: seq<NFA>, bounds: seq<int>,
                       bindings: map<int, string -> T>, next: int)
    requires Progress(patterns, nfas, bounds, bindings) && |nfas| < |patterns|
    requires bounds[|nfas|] < next
    ensures forall i :: 0 <= i <= |nfas| ==>
      Exit(bounds + [next], i) in bindings[next - 1 := patterns[|nfas|].1]
      && bindings[next - 1 := patterns[|nfas|].1][Exit(bounds + [next], i)] == patterns[i].1
  {
    var n := |nfas|;
    var b2, m2 := bounds + [next], bindings[next - 1 := patterns[n].1];
    forall i | 0 <= i <= n ensures Exit(b2, i) in m2 && m2[Exit(b2, i)] == patterns[i].1 {
      if i < n {
        EarlierExitKept(patterns, nfas, bounds, bindings, next, i);
      }
    }
  }

  /** The final state of an earlier pattern lies below the new one, so its binding survives. */
  lemma EarlierExitKept<T>(patterns: seq<(Regex, string -> T)>, nfas: seq<NFA>, bounds: seq<int>,
                           bindings: map<int, string -> T>, next: int, i: nat)
    requires Progress(patterns, nfas, bounds, bindings) && |nfas| < |patterns|
    requires bounds[|nfas|] < next && i < |nfas|
    ensures Exit(bounds + [next], i) == Exit(bounds, i) < next - 1
    ensures Exit(bounds, i) in bindings && bindings[Exit(bounds, i)] == patterns[i].1
  {
    var n := |nfas|;
    assert Exit(bounds, i) in PatternFinals(bounds);
    assert i + 1 == n || bounds[i + 1] < bounds[n];
  }

  /**
   * The automata and the ranges of states come from the patterns' regexes: pattern `i`
   * resolves against the name table, and `parts[i]` is the Thompson automaton of its
   * normal form built with the counter at `bounds[i]`, which leaves the counter at
   * `bounds[i + 1]`.
   */
  ghost predicate FromPatterns<T>(names: NamesList, patterns: seq<(Regex, string -> T)>, parts: seq<NFA>,
                                  bounds: seq<int>) {
    && Acyclic(Some(names))
    && |parts| <= |patterns| && |bounds| == |parts| + 1
    && forall i :: 0 <= i < |parts| ==>
      && ToRegular(patterns[i].0, Some(names)).Ok?
      && parts[i] == PrimitiveNfa(ToRegular(patterns[i].0, Some(names)).value, bounds[i])
      && bounds[i + 1] == bounds[i] + 1 + Size(ToRegular(patterns[i].0, Some(names)).value)
  }

  /** Compiling the next pattern from the current counter extends `FromPatterns`. */
  lemma FromPatternsSnoc<T>(names: NamesList, patterns: seq<(Regex, string -> T)>, parts: seq<NFA>,
                            bounds: seq<int>, regular: Regex, nfa: NFA, next: int)
    requires FromPatterns(names, patterns, parts, bounds) && |parts| < |patterns|
    requires ToRegular(patterns[|parts|].0, Some(names)) == Ok(regular)
    requires nfa == PrimitiveNfa(regular, bounds[|parts|]) && next == bounds[|parts|] + 1 + Size(regular)
    ensures FromPatterns(names, patterns, parts + [nfa], bounds + [next])
  {
    var n := |parts|;
    var p2, b2 := parts + [nfa], bounds + [next];
    forall i | 0 <= i < |p2|
      ensures && ToRegular(patterns[i].0, Some(names)).Ok?
              && p2[i] == PrimitiveNfa(ToRegular(patterns[i].0, Some(names)).value, b2[i])
              && b2[i + 1] == b2[i] + 1 + Size(ToRegular(patterns[i].0, Some(names)).value)
    {
      if i < n {
        assert p2[i] == parts[i] && b2[i] == bounds[i] && b2[i + 1] == bounds[i + 1];
      }
    }
  }

  /** Before the first pattern: no automaton, the counter at 0 and nothing bound. */
  lemma NothingCompiled<T>(names: NamesList, patterns: seq<(Regex, string -> T)>)
    requires Acyclic(Some(names))
    ensures Progress(patterns, [], [0], map[]) && FromPatterns(names, patterns, [], [0])
  {
    assert PatternFinals([0]) == {};
  }

  /** Every pattern compiled so far resolves against the name table. */
  lemma FromPatternsResolve<T>(names: NamesList, patterns: seq<(Regex, string -> T)>, parts: seq<NFA>,
                               bounds: seq<int>)
    requires FromPatterns(names, patterns, parts, bounds)
    ensures forall i :: 0 <= i < |parts| ==> Resolves(patterns[i].0, Some(names))
  {
    forall i | 0 <= i < |parts| ensures Resolves(patterns[i].0, Some(names)) {
      assert ToRegular(patterns[i].0, Some(names)).Ok?;
    }
  }

  /**
   * One pass of the loop of `Lexer::new` for the next pattern, which `to_regular` has
   * turned into `regular`: compiles it from the current counter, binds its final state
   * to the pattern's action and appends its automaton.
   */
  method AddPart<T>(names: NamesList, patterns: seq<(Regex, string -> T)>, nfas: seq<NFA>, ghost bounds: seq<int>,
                    bindings: map<int, string -> T>, regular: Regex, counter: int)
    returns (nfas2: seq<NFA>, bindings2: map<int, string -> T>, next: int, ghost bounds2: seq<int>)
    requires Progress(patterns, nfas, bounds, bindings) && FromPatterns(names, patterns, nfas, bounds)
    requires |nfas| < |patterns| && ToRegular(patterns[|nfas|].0, Some(names)) == Ok(regular)
    requires counter == bounds[|nfas|]
    ensures Progress(patterns, nfas2, bounds2, bindings2) && FromPatterns(names, patterns, nfas2, bounds2)
    ensures nfas2 == nfas + [PrimitiveNfa(regular, counter)]
    ensures next == counter + 1 + Size(regular) && bounds2 == bounds + [next]
  {
    NormalOfPrimitive(regular);
    var nfa;
    nfa, next := ToNfa(regular, counter);
    PartAdded(names, patterns, nfas, bounds, bindings, regular, counter, nfa, next);
    bindings2 := Bind(bindings, nfa.finals, patterns[|nfas|].1, next - 1);
    nfas2 := nfas + [nfa];
    bounds2 := bounds + [next];
  }

  /** The automaton `to_nfa` returns for the next pattern keeps the loop's state when appended. */
  lemma PartAdded<T>(names: NamesList, patterns: seq<(Regex, string -> T)>, nfas: seq<NFA>, bounds: seq<int>,
                     bindings: map<int, string -> T>, regular: Regex, counter: int, nfa: NFA, next: int)
    requires Progress(patterns, nfas, bounds, bindings) && FromPatterns(names, patterns, nfas, bounds)
    requires |nfas| < |patterns| && ToRegular(patterns[|nfas|].0, Some(names)) == Ok(regular)
    requires counter == bounds[|nfas|] && NameFree(regular)
    requires nfa == ThompsonNfa(regular, counter) && next == counter + 1 + Size(Normal(regular))
    ensures nfa == PrimitiveNfa(regular, counter) && next == counter + 1 + Size(regular)
    ensures nfa.finals == {next - 1}
    ensures Progress(patterns, nfas + [nfa], bounds + [next], bindings[next - 1 := patterns[|nfas|].1])
    ensures FromPatterns(names, patterns, nfas + [nfa], bounds + [next])
  {
    PartCompiled(regular, counter, nfa, next);
    ProgressStep(patterns, nfas, bounds, bindings, nfa, next);
    FromPatternsSnoc(names, patterns, nfas, bounds, regular, nfa, next);
  }

  /** `to_nfa` on a primitive regex builds its Thompson automaton, laid out from the counter. */
  lemma PartCompiled(regular: Regex, counter: int, nfa: NFA, next: int)
    requires IsPrimitive(regular) && NameFree(regular)
    requires nfa == ThompsonNfa(regular, counter) && next == counter + 1 + Size(Normal(regular))
    ensures nfa == PrimitiveNfa(regular, counter) && next == counter + 1 + Size(regular)
    ensures PartLaid(nfa, counter, next)
  {
    NormalOfPrimitive(regular);
    NfaLayout(regular, counter);
  }

  /** What `Lexer::new` produces when every pattern resolves. */
  ghost predicate Compiled<T>(patterns: seq<(Regex, string -> T)>, lx: Lexer<T>, parts: seq<NFA>, bounds: seq<int>) {
    && |parts| == |patterns|
    && Progress(patterns, parts, bounds, lx.bindings)
    && lx.nfa.initial == bounds[|parts|]
    && lx.nfa.finals == AllFinals(parts)
    && lx.nfa.delta == Merged(parts)[(bounds[|parts|], EPSILON_CHR) := Initials(parts)]
  }

  /** The end of `Lexer::new`: glues the pattern automata under the next free state. */
  method Glue<T>(patterns: seq<(Regex, string -> T)>, nfas: seq<NFA>, ghost bounds: seq<int>,
                 bindings: map<int, string -> T>, counter: int)
    returns (lx: Lexer<T>)
    requires Progress(patterns, nfas, bounds, bindings) && |nfas| == |patterns|
    requires counter == bounds[|nfas|]
    ensures Compiled(patterns, lx, nfas, bounds)
  {
    var glued := GlueNfas(nfas, counter);
    lx := Lexer(glued, bindings);
  }

  /**
   * `Lexer::new`. A pattern whose names do not resolve makes the Rust code panic at its
   * `unwrap`; here the error comes back instead. Otherwise pattern `i` is compiled into
   * `parts[i]` over the states `[bounds[i], bounds[i + 1])`, its final state is bound to
   * its action, and the automata are glued under the start state `bounds[|patterns|]`.
   */
  method New<T>(names: NamesList, patterns: seq<(Regex, string -> T)>)
    returns (res: Result<Lexer<T>, NameError>, ghost parts: seq<NFA>, ghost bounds: seq<int>)
    requires Acyclic(Some(names))
    ensures res.Ok? <==> forall i :: 0 <= i < |patterns| ==> Resolves(patterns[i].0, Some(names))
    ensures res.Err? ==> exists i :: 0 <= i < |patterns| && ToRegular(patterns[i].0, Some(names)) == Err(res.error)
                                 && forall j :: 0 <= j < i ==> ToRegular(patterns[j].0, Some(names)).Ok?
    ensures res.Ok? ==> Compiled(patterns, res.value, parts, bounds)
    ensures res.Ok? ==> FromPatterns(names, patterns, parts, bounds)
  {
    var counter := 0;
    var nfaVec: seq<NFA> := [];
    var bindings: map<int, string -> T> := map[];
    parts, bounds := [], [0];
    NothingCompiled(names, patterns);
    var i := 0;
    while i < |patterns|
      invariant 0 <= i <= |patterns| && |nfaVec| == i
      invariant Progress(patterns, nfaVec, bounds, bindings) && FromPatterns(names, patterns, nfaVec, bounds)
      invariant counter == bounds[i]
    {
      var regular := ToRegular(patterns[i].0, Some(names));
      if regular.Err? {
        res := Err(regular.error);
        assert !Resolves(patterns[i].0, Some(names));
        return;
      }
      nfaVec, bindings, counter, bounds := AddPart(names, patterns, nfaVec, bounds, bindings, regular.value, counter);
      i := i + 1;
    }
    FromPatternsResolve(names, patterns, nfaVec, bounds);
    var lx := Glue(patterns, nfaVec, bounds, bindings, counter);
    res := Ok(lx);
    parts := nfaVec;
  }

  /** `build`: `Lexer::new` on the builder's names and patterns. */
  method Build<T>(b: LexerBuilder<T>) returns (res: Result<Lexer<T>, NameError>, ghost parts: seq<NFA>, ghost bounds: seq<int>)
    requires Acyclic(Some(b.names))
    ensures res.Ok? <==> forall i :: 0 <= i < |b.patterns| ==> Resolves(b.patterns[i].0, Some(b.names))
    ensures res.Err? ==> exists i :: 0 <= i < |b.patterns| && ToRegular(b.patterns[i].0, Some(b.names)) == Err(res.error)
                                 && forall j :: 0 <= j < i ==> ToRegular(b.patterns[j].0, Some(b.names)).Ok?
    ensures res.Ok? ==> Compiled(b.patterns, res.value, parts, bounds)
    ensures res.Ok? ==> FromPatterns(b.names, b.patterns, parts, bounds)
  {
    res, parts, bounds := New(b.names, b.patterns);
  }

  /**
   * The glued table holds every pattern's edges unchanged plus the start state's
   * ε-edges to the pattern starts, and nothing else; the start state is numbered above
   * every state of the patterns.
   */
  lemma GluedLexerTable<T>(patterns: seq<(Regex, string -> T)>, lx: Lexer<T>, parts: seq<NFA>, bounds: seq<int>)
    requires Compiled(patterns, lx, parts, bounds)
    ensures forall i, k :: 0 <= i < |parts| && k in parts[i].delta ==> k in lx.nfa.delta && lx.nfa.delta[k] == parts[i].delta[k]
    ensures lx.nfa.delta[(lx.nfa.initial, EPSILON_CHR)] == Initials(parts)
    ensures forall k :: k in lx.nfa.delta ==> k == (lx.nfa.initial, EPSILON_CHR) || k.0 < lx.nfa.initial
    ensures forall k, t :: k in lx.nfa.delta && t in lx.nfa.delta[k] ==> t < lx.nfa.initial
  {
    LayoutDisjoint(parts, bounds);
    var n := |parts|;
    GluedTable(parts, bounds[n], lx.nfa.delta);
    forall k | k in lx.nfa.delta && k != (lx.nfa.initial, EPSILON_CHR)
      ensures k.0 < lx.nfa.initial && forall t :: t in lx.nfa.delta[k] ==> t < lx.nfa.initial
    {
      var i :| 0 <= i < n && k in parts[i].delta;
      assert PartLaid(parts[i], bounds[i], bounds[i + 1]);
      assert i + 1 == n || bounds[i + 1] < bounds[n];
    }
    forall t | t in lx.nfa.delta[(lx.nfa.initial, EPSILON_CHR)] ensures t < lx.nfa.initial {
      InitialsBelow(parts, bounds, t);
    }
  }

  lemma InitialsBelow(parts: seq<NFA>, bounds: seq<int>, t: int)
    requires Layout(parts, bounds) && t in Initials(parts)
    ensures t < bounds[|parts|]
  {
    InitialsMember(parts, t);
    var i :| 0 <= i < |parts| && parts[i].initial == t;
    assert PartLaid(parts[i], bounds[i], bounds[i + 1]);
    assert bounds[i] < bounds[|parts|];
  }

  /**
   * The tie-break: of the patterns whose final state a set of states contains, the
   * smallest final state belongs to the earliest pattern, and its action is that
   * pattern's action.
   */
  lemma EarliestPatternWins<T>(patterns: seq<(Regex, string -> T)>, lx: Lexer<T>, parts: seq<NFA>, bounds: seq<int>,
                               states: set<int>, f: int)
    requires Compiled(patterns, lx, parts, bounds)
    requires f in states && f in lx.nfa.finals
    requires forall g :: g in states && g in lx.nfa.finals ==> f <= g
    ensures exists i :: 0 <= i < |patterns| && f == Exit(bounds, i) && lx.bindings[f] == patterns[i].1
                     && forall j :: 0 <= j < |patterns| && Exit(bounds, j) in states ==> i <= j
  {
    assert f in PatternFinals(bounds);
    var i :| 0 <= i < |bounds| - 1 && f == Exit(bounds, i);
    forall j | 0 <= j < |patterns| && Exit(bounds, j) in states ensures i <= j {
      assert Exit(bounds, j) in PatternFinals(bounds);
    }
  }
}
