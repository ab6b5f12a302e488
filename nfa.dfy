/**
 * The automaton and the operations on it (src/nfa.rs): gluing per-pattern automata
 * under a new start state, ε-closure by a work list, and the one-symbol step.
 */
module Nfa {
  import opened Transitions

  /** An automaton: never changed after it is built. */
  datatype NFA = NFA(delta: Delta, initial: int, finals: set<int>)

  /* ---------------- Gluing ---------------- */

  /** The initial states of the automata, in a set. */
  function Initials(nfas: seq<NFA>): (r: set<int>)
  {
    if |nfas| == 0 then {}
    else
      Initials(nfas[..|nfas| - 1]) + {nfas[|nfas| - 1].initial}
  }

  /** The union of the final states of the automata. */
  function AllFinals(nfas: seq<NFA>): (r: set<int>)
  {
    if |nfas| == 0 then {}
    else
      AllFinals(nfas[..|nfas| - 1]) + nfas[|nfas| - 1].finals
  }

  /**
   * The tables of the automata copied one after the other with `expand_trans`:
   * on a key that two tables share, the later table's entry wins.
   */
  function Merged(nfas: seq<NFA>): (r: Delta)
  {
    if |nfas| == 0 then map[]
    else
      Merged(nfas[..|nfas| - 1]) + nfas[|nfas| - 1].delta
  }

  /** The entries of `m` whose keys are in `keys`. */
  function Restrict(m: Delta, keys: set<(int, char)>): Delta {
    map k | k in keys && k in m :: m[k]
  }

  /** Copying one more entry with `expand_trans` extends the copied part by that entry. */
  lemma CopyOneEntry(before: Delta, m: Delta, done: set<(int, char)>, key: (int, char))
    requires key in m
    ensures ExpandTrans(before + Restrict(m, done), key, m[key]) == before + Restrict(m, done + {key})
  {
  }

  /** Restricting a table to all of its keys gives the table back. */
  lemma RestrictAll(m: Delta)
    ensures Restrict(m, m.Keys) == m
  {
  }

  /**
   * The inner loop of `glue_nfas`: every entry of `m` is written into `into` with
   * `expand_trans`, so that `m`'s entries replace those already present.
   */
  method CopyEntries(into: Delta, m: Delta) returns (d: Delta)
    ensures d == into + m
  {
    d := into;
    var pending := m.Keys;
    while exists key :: key in pending
      invariant pending <= m.Keys
      invariant d == into + Restrict(m, m.Keys - pending)
      decreases pending
    {
      var key :| key in pending;
      CopyOneEntry(into, m, m.Keys - pending, key);
      assert (m.Keys - pending) + {key} == m.Keys - (pending - {key});
      d := ExpandTrans(d, key, m[key]);
      pending := pending - {key};
    }
    assert pending == {};
    RestrictAll(m);
  }

  /**
   * `glue_nfas`: one automaton whose start state `newFst` has ε-edges to every input's
   * initial state, whose finals are the union of the inputs' finals, and whose table is
   * the inputs' tables copied in order.
   */
  method GlueNfas(nfas: seq<NFA>, newFst: int) returns (r: NFA)
    ensures r.initial == newFst
    ensures r.finals == AllFinals(nfas)
    ensures r.delta == Merged(nfas)[(newFst, EPSILON_CHR) := Initials(nfas)]
  {
    var newDelta: Delta := map[];
    var firstStates: set<int> := {};
    var finalStates: set<int> := {};
    var i := 0;
    while i < |nfas|
      invariant 0 <= i <= |nfas|
      invariant firstStates == Initials(nfas[..i])
      invariant finalStates == AllFinals(nfas[..i])
      invariant newDelta == Merged(nfas[..i])
    {
      var nfa := nfas[i];
      ghost var next := nfas[..i + 1];
      assert next[..i] == nfas[..i] && next[i] == nfa;
      assert Merged(next) == Merged(nfas[..i]) + nfa.delta;
      firstStates := firstStates + {nfa.initial};
      finalStates := finalStates + nfa.finals;
      newDelta := CopyEntries(newDelta, nfa.delta);
      assert firstStates == Initials(next) && finalStates == AllFinals(next);
      i := i + 1;
    }
    assert nfas[..i] == nfas;
    newDelta := ExpandTrans(newDelta, (newFst, EPSILON_CHR), firstStates);
    r := NFA(newDelta, newFst, finalStates);
  }

  lemma {:induction false} MergedKeys(nfas: seq<NFA>, k: (int, char))
    ensures k in Merged(nfas) <==> exists i :: 0 <= i < |nfas| && k in nfas[i].delta
  {
    if |nfas| > 0 {
      var init := nfas[..|nfas| - 1];
      MergedKeys(init, k);
      assert forall i :: 0 <= i < |init| ==> init[i] == nfas[i];
    }
  }

  lemma {:induction false} InitialsMember(nfas: seq<NFA>, s: int)
    ensures s in Initials(nfas) <==> exists i :: 0 <= i < |nfas| && nfas[i].initial == s
  {
    if |nfas| > 0 {
      var init := nfas[..|nfas| - 1];
      InitialsMember(init, s);
      assert forall i :: 0 <= i < |init| ==> init[i] == nfas[i];
    }
  }

  lemma {:induction false} AllFinalsMember(nfas: seq<NFA>, s: int)
    ensures s in AllFinals(nfas) <==> exists i :: 0 <= i < |nfas| && s in nfas[i].finals
  {
    if |nfas| > 0 {
      var init := nfas[..|nfas| - 1];
      AllFinalsMember(init, s);
      assert forall i :: 0 <= i < |init| ==> init[i] == nfas[i];
    }
  }

  ghost predicate DisjointKeys(nfas: seq<NFA>) {
    forall i, j, k :: 0 <= i < j < |nfas| && k in nfas[i].delta ==> k !in nfas[j].delta
  }

  /** With pairwise disjoint tables, copying in order loses no entry and changes none. */
  lemma {:induction false} MergedKeepsEntries(nfas: seq<NFA>)
    requires DisjointKeys(nfas)
    ensures forall i, k :: 0 <= i < |nfas| && k in nfas[i].delta ==> k in Merged(nfas) && Merged(nfas)[k] == nfas[i].delta[k]
  {
    if |nfas| > 0 {
      var init := nfas[..|nfas| - 1];
      assert forall i :: 0 <= i < |init| ==> init[i] == nfas[i];
      MergedKeepsEntries(init);
      forall i, k | 0 <= i < |nfas| && k in nfas[i].delta
        ensures k in Merged(nfas) && Merged(nfas)[k] == nfas[i].delta[k]
      {
        MergedKeys(nfas, k);
        if i < |nfas| - 1 {
          assert k !in nfas[|nfas| - 1].delta;
          MergedKeys(init, k);
        }
      }
    }
  }

  /**
   * The glued table: each input transition appears unchanged, the new start state's
   * ε-entry is exactly the set of input initial states, and there is no other key.
   */
  lemma GluedTable(nfas: seq<NFA>, newFst: int, glued: Delta)
    requires DisjointKeys(nfas)
    requires forall i :: 0 <= i < |nfas| ==> (newFst, EPSILON_CHR) !in nfas[i].delta
    requires glued == Merged(nfas)[(newFst, EPSILON_CHR) := Initials(nfas)]
    ensures forall i, k :: 0 <= i < |nfas| && k in nfas[i].delta ==> k in glued && glued[k] == nfas[i].delta[k]
    ensures glued[(newFst, EPSILON_CHR)] == Initials(nfas)
    ensures forall k :: k in glued ==> k == (newFst, EPSILON_CHR) || exists i :: 0 <= i < |nfas| && k in nfas[i].delta
    ensures |nfas| == 0 ==> glued == map[(newFst, EPSILON_CHR) := {}]
  {
    MergedKeepsEntries(nfas);
    forall k | k in glued && k != (newFst, EPSILON_CHR)
      ensures exists i :: 0 <= i < |nfas| && k in nfas[i].delta
    {
      MergedKeys(nfas, k);
    }
    forall i, k | 0 <= i < |nfas| && k in nfas[i].delta
      ensures k in glued && glued[k] == nfas[i].delta[k]
    {
      MergedKeys(nfas, k);
    }
  }

  /* ---------------- ε-closure ---------------- */

  predicate EpsEdge(delta: Delta, s: int, t: int) {
    (s, EPSILON_CHR) in delta && t in delta[(s, EPSILON_CHR)]
  }

  /** A path of ε-edges: `p[i]` to `p[i+1]` for every `i`. */
  ghost predicate EpsPath(delta: Delta, p: seq<int>) {
    |p| > 0 && forall i :: 0 <= i < |p| - 1 ==> EpsEdge(delta, p[i], p[i + 1])
  }

  /** `t` is reached from a state of `from` by zero or more ε-edges. */
  ghost predicate EpsReachable(delta: Delta, from: set<int>, t: int) {
    exists p :: EpsPath(delta, p) && p[0] in from && p[|p| - 1] == t
  }

  ghost predicate EpsClosed(delta: Delta, r: set<int>) {
    forall s, t :: s in r && EpsEdge(delta, s, t) ==> t in r
  }

  /** Every state that some ε-edge leads to. */
  ghost function EpsTargets(delta: Delta): set<int> {
    set k, t | k in delta && k.1 == EPSILON_CHR && t in delta[k] :: t
  }

  /** Every state that has an ε-entry. */
  ghost function EpsSources(delta: Delta): set<int> {
    set k | k in delta && k.1 == EPSILON_CHR :: k.0
  }

  /** The reflexive-transitive ε-closure of `from`. */
  ghost function Closure(delta: Delta, from: set<int>): set<int> {
    set t | t in from + EpsTargets(delta) && EpsReachable(delta, from, t)
  }

  /** Membership in the closure is exactly ε-reachability. */
  lemma ClosureIsReachability(delta: Delta, from: set<int>, t: int)
    ensures t in Closure(delta, from) <==> EpsReachable(delta, from, t)
  {
    if EpsReachable(delta, from, t) {
      var p :| EpsPath(delta, p) && p[0] in from && p[|p| - 1] == t;
      if |p| > 1 {
        var k := (p[|p| - 2], EPSILON_CHR);
        assert EpsEdge(delta, p[|p| - 2], p[|p| - 1]);
        assert k in delta && t in delta[k];
        assert t in EpsTargets(delta);
      }
    }
  }

  lemma ClosureContainsInput(delta: Delta, from: set<int>)
    ensures from <= Closure(delta, from)
  {
    forall s | s in from ensures s in Closure(delta, from) {
      assert EpsPath(delta, [s]);
    }
  }

  lemma ClosureIsClosed(delta: Delta, from: set<int>)
    ensures EpsClosed(delta, Closure(delta, from))
  {
    var c := Closure(delta, from);
    forall s, t | s in c && EpsEdge(delta, s, t) ensures t in c {
      ClosureIsReachability(delta, from, s);
      var p :| EpsPath(delta, p) && p[0] in from && p[|p| - 1] == s;
      var q := p + [t];
      assert EpsPath(delta, q);
      ClosureIsReachability(delta, from, t);
    }
  }

  lemma {:induction false} PathStaysInClosed(delta: Delta, p: seq<int>, r: set<int>)
    requires EpsPath(delta, p) && p[0] in r && EpsClosed(delta, r)
    ensures p[|p| - 1] in r
    decreases |p|
  {
    if |p| > 1 {
      var init := p[..|p| - 1];
      assert EpsPath(delta, init);
      PathStaysInClosed(delta, init, r);
      assert EpsEdge(delta, p[|p| - 2], p[|p| - 1]);
    }
  }

  /** The closure is the least ε-closed superset of its input. */
  lemma ClosureIsLeast(delta: Delta, from: set<int>, r: set<int>)
    requires from <= r && EpsClosed(delta, r)
    ensures Closure(delta, from) <= r
  {
    forall t | t in Closure(delta, from) ensures t in r {
      ClosureIsReachability(delta, from, t);
      var p :| EpsPath(delta, p) && p[0] in from && p[|p| - 1] == t;
      PathStaysInClosed(delta, p, r);
    }
  }

  lemma ClosureIdempotent(delta: Delta, from: set<int>)
    ensures Closure(delta, Closure(delta, from)) == Closure(delta, from)
  {
    var c := Closure(delta, from);
    ClosureIsClosed(delta, from);
    ClosureIsLeast(delta, c, c);
    ClosureContainsInput(delta, c);
  }

  lemma ClosureMonotone(delta: Delta, a: set<int>, b: set<int>)
    requires a <= b
    ensures Closure(delta, a) <= Closure(delta, b)
  {
    ClosureContainsInput(delta, b);
    ClosureIsClosed(delta, b);
    ClosureIsLeast(delta, a, Closure(delta, b));
  }

  lemma ClosureOfEmpty(delta: Delta)
    ensures Closure(delta, {}) == {}
  {
    ClosureIsLeast(delta, {}, {});
  }

  /**
   * What the work list keeps true: `result` lies between the input and its closure; a
   * visited state has ε-edges and all its successors are in `result`; a state of `result`
   * with ε-edges that is no longer queued has been visited.
   */
  ghost predicate WorkListInv(delta: Delta, states: set<int>, closure: set<int>, sources: set<int>,
                              toVisit: set<int>, visited: set<int>, result: set<int>)
  {
    && states <= result <= closure
    && toVisit <= result
    && visited <= sources && toVisit !! visited
    && (forall s :: s in visited ==> (s, EPSILON_CHR) in delta && delta[(s, EPSILON_CHR)] <= result)
    && (forall s :: s in result && s !in toVisit && (s, EPSILON_CHR) in delta ==> s in visited)
  }

  /**
   * One pass of the outer loop of `epsilon_closure` over a snapshot of the work list:
   * each queued state with ε-edges adds its successors to the result, is marked visited
   * and queues its unvisited successors; every processed state leaves the queue. Either
   * some state is newly visited or the queue ends up empty.
   */
  method VisitPass(delta: Delta, ghost states: set<int>, ghost closure: set<int>, ghost sources: set<int>,
                   toVisit0: set<int>, visited0: set<int>, result0: set<int>)
    returns (toVisit: set<int>, visited: set<int>, result: set<int>)
    requires EpsClosed(delta, closure) && sources == EpsSources(delta)
    requires WorkListInv(delta, states, closure, sources, toVisit0, visited0, result0)
    ensures WorkListInv(delta, states, closure, sources, toVisit, visited, result)
    ensures visited0 <= visited
    ensures (visited == visited0 && toVisit == {}) || exists v :: v in visited && v !in visited0
  {
    toVisit, visited, result := toVisit0, visited0, result0;
    var pending := toVisit;
    while exists s :: s in pending
      invariant WorkListInv(delta, states, closure, sources, toVisit, visited, result)
      invariant pending <= toVisit
      invariant visited0 <= visited
      invariant (visited == visited0 && toVisit == pending) || exists v :: v in visited && v !in visited0
      decreases pending
    {
      var state :| state in pending;
      pending := pending - {state};
      if (state, EPSILON_CHR) in delta {
        var reached := delta[(state, EPSILON_CHR)];
        forall t | t in reached ensures t in closure {
          assert EpsEdge(delta, state, t);
        }
        result := result + reached;
        visited := visited + {state};
        assert state in sources;
        toVisit := toVisit + (reached - visited);
      }
      toVisit := toVisit - {state};
    }
    assert pending == {};
  }

  /**
   * `epsilon_closure`: the work-list loop. A state with ε-edges is marked visited when
   * processed and is never queued again, which bounds the outer loop.
   */
  method EpsilonClosure(delta: Delta, states: set<int>) returns (result: set<int>)
    ensures result == Closure(delta, states)
  {
    var toVisit := states;
    var visited: set<int> := {};
    result := states;
    ClosureContainsInput(delta, states);
    ClosureIsClosed(delta, states);
    ghost var closure := Closure(delta, states);
    ghost var sources := EpsSources(delta);
    while exists s :: s in toVisit
      invariant WorkListInv(delta, states, closure, sources, toVisit, visited, result)
      decreases sources - visited, toVisit
    {
      toVisit, visited, result := VisitPass(delta, states, closure, sources, toVisit, visited, result);
    }
    assert toVisit == {};
    ClosureIsLeast(delta, states, result);
  }

  /* ---------------- One-symbol step ---------------- */

  /** The union of the `c`-successors of the states of `from`; a missing key contributes nothing. */
  ghost function Step(delta: Delta, from: set<int>, c: char): set<int>
  {
    set s, t | s in from && (s, c) in delta && t in delta[(s, c)] :: t
  }

  lemma StepDistributes(delta: Delta, a: set<int>, b: set<int>, c: char)
    ensures Step(delta, a + b, c) == Step(delta, a, c) + Step(delta, b, c)
  {
  }

  lemma StepOfOne(delta: Delta, s: int, c: char)
    ensures Step(delta, {s}, c) == if (s, c) in delta then delta[(s, c)] else {}
  {
    if (s, c) in delta {
      forall t | t in delta[(s, c)] ensures t in Step(delta, {s}, c) {
        assert s in {s} && (s, c) in delta && t in delta[(s, c)];
      }
    }
  }

  lemma StepOfEmpty(delta: Delta, c: char)
    ensures Step(delta, {}, c) == {}
  {
  }

  /** `make_transition`: accumulates the successors of each state in turn. */
  method MakeTransition(delta: Delta, current: set<int>, c: char) returns (result: set<int>)
    ensures result == Step(delta, current, c)
  {
    result := {};
    var rest := current;
    while exists s :: s in rest
      invariant rest <= current
      invariant result == Step(delta, current - rest, c)
      decreases rest
    {
      var s :| s in rest;
      StepDistributes(delta, current - rest, {s}, c);
      StepOfOne(delta, s, c);
      assert current - (rest - {s}) == (current - rest) + {s};
      if (s, c) in delta {
        result := result + delta[(s, c)];
      }
      rest := rest - {s};
    }
    assert rest == {};
    assert current - rest == current;
  }
}
