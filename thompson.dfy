/**
 * The Thompson construction of src/regex.rs (`create_nfa` and `to_nfa`). The Rust code
 * threads a `&mut Delta` and a `&mut i32` counter through the recursion; here both are
 * passed in and handed back. Each method is proved to add exactly the table `EdgesOf`
 * of the normalised regex and to move the counter on by its `Size`. The layout of the
 * states, and the fact that no call of `expand_trans` overwrites an entry written
 * before it, are proved about those two functions.
 */
module Thompson {
  import opened Wrappers
  import opened Transitions
  import opened RegexSyntax
  import opened Nfa

  /* ---------------- The construction, as functions ---------------- */

  /** The regex mentions no name: the input `create_nfa` handles without panicking. */
  predicate NameFree(r: Regex) {
    match r
    case Name(_) => false
    case Seqn(a, b) => NameFree(a) && NameFree(b)
    case Or(a, b) => NameFree(a) && NameFree(b)
    case Star(a) => NameFree(a)
    case Plus(a) => NameFree(a)
    case Optional(a) => NameFree(a)
    case _ => true
  }

  /**
   * The primitive form `create_nfa` builds from: the sugar expanded as `to_regular`
   * expands it without a name table.
   */
  function Normal(r: Regex): (n: Regex)
    requires NameFree(r)
    ensures IsPrimitive(n)
  {
    match r
    case Epsilon => r
    case Char(_) => r
    case Set(_) => r
    case Seqn(a, b) => Seqn(Normal(a), Normal(b))
    case Or(a, b) => Or(Normal(a), Normal(b))
    case Star(a) => Star(Normal(a))
    case Str(s) => FromStr(s)
    case Range(lo, hi) => FromRange(lo, hi)
    case Plus(a) => Seqn(Normal(a), Star(Normal(a)))
    case Optional(a) => Or(Normal(a), Epsilon)
  }

  /** `Normal` is `to_regular` without a name table, which succeeds exactly on name-free input. */
  lemma {:induction false} NormalIsToRegular(r: Regex)
    ensures NameFree(r) <==> Resolves(r, None)
    ensures NameFree(r) ==> ToRegular(r, None) == Ok(Normal(r))
  {
    match r
    case Seqn(a, b) => NormalIsToRegular(a); NormalIsToRegular(b);
    case Or(a, b) => NormalIsToRegular(a); NormalIsToRegular(b);
    case Star(a) => NormalIsToRegular(a);
    case Plus(a) => NormalIsToRegular(a);
    case Optional(a) => NormalIsToRegular(a);
    case _ =>
  }

  /** A primitive regex is name-free and its own normal form. */
  lemma {:induction false} NormalOfPrimitive(r: Regex)
    requires IsPrimitive(r)
    ensures NameFree(r) && Normal(r) == r
  {
    match r
    case Seqn(a, b) => NormalOfPrimitive(a); NormalOfPrimitive(b);
    case Or(a, b) => NormalOfPrimitive(a); NormalOfPrimitive(b);
    case Star(a) => NormalOfPrimitive(a);
    case Epsilon =>
    case Char(_) =>
    case Set(_) =>
  }

  /** The entries `(current, c) -> target` for every character `c` of `chars`. */
  ghost function SetMap(current: int, chars: set<char>, target: set<int>): Delta
    decreases chars
  {
    if exists c :: c in chars then
      var c :| c in chars;
      SetMap(current, chars - {c}, target)[(current, c) := target]
    else map[]
  }

  /** The entries `(s, EPSILON_CHR) -> target` for every state `s` of `outs`. */
  ghost function ExitMap(outs: set<int>, target: set<int>): Delta
    decreases outs
  {
    if exists s :: s in outs then
      var s :| s in outs;
      ExitMap(outs - {s}, target)[(s, EPSILON_CHR) := target]
    else map[]
  }

  /** `SetMap` holds exactly the keys `(current, c)` with `c` in `chars`, each mapped to `target`. */
  lemma {:induction false} SetMapPoints(current: int, chars: set<char>, target: set<int>)
    ensures forall s, c :: (s, c) in SetMap(current, chars, target) <==> s == current && c in chars
    ensures forall s, c :: (s, c) in SetMap(current, chars, target) ==> SetMap(current, chars, target)[(s, c)] == target
    decreases chars
  {
    if exists c :: c in chars {
      var c :| c in chars && SetMap(current, chars, target) == SetMap(current, chars - {c}, target)[(current, c) := target];
      SetMapPoints(current, chars - {c}, target);
    }
  }

  /** `ExitMap` holds exactly the keys `(s, EPSILON_CHR)` with `s` in `outs`, each mapped to `target`. */
  lemma {:induction false} ExitMapPoints(outs: set<int>, target: set<int>)
    ensures forall s, c :: (s, c) in ExitMap(outs, target) <==> s in outs && c == EPSILON_CHR
    ensures forall s, c :: (s, c) in ExitMap(outs, target) ==> ExitMap(outs, target)[(s, c)] == target
    decreases outs
  {
    if exists s :: s in outs {
      var s :| s in outs && ExitMap(outs, target) == ExitMap(outs - {s}, target)[(s, EPSILON_CHR) := target];
      ExitMapPoints(outs - {s}, target);
    }
  }

  /** One more character in the set is one more entry. */
  lemma SetMapAdd(current: int, chars: set<char>, c: char, target: set<int>)
    ensures SetMap(current, chars + {c}, target) == SetMap(current, chars, target)[(current, c) := target]
  {
    var m1, m2 := SetMap(current, chars + {c}, target), SetMap(current, chars, target)[(current, c) := target];
    SetMapPoints(current, chars + {c}, target);
    SetMapPoints(current, chars, target);
    forall k ensures (k in m1 <==> k in m2) && (k in m1 ==> m1[k] == m2[k]) {
      var (x, y) := k;
    }
  }

  /** One more exit is one more entry. */
  lemma ExitMapAdd(outs: set<int>, s: int, target: set<int>)
    ensures ExitMap(outs + {s}, target) == ExitMap(outs, target)[(s, EPSILON_CHR) := target]
  {
    var m1, m2 := ExitMap(outs + {s}, target), ExitMap(outs, target)[(s, EPSILON_CHR) := target];
    ExitMapPoints(outs + {s}, target);
    ExitMapPoints(outs, target);
    forall k ensures (k in m1 <==> k in m2) && (k in m1 ==> m1[k] == m2[k]) {
      var (x, y) := k;
    }
  }

  /**
   * The number of states the construction allocates for the primitive `r`: the counter
   * moves from `counter` to `counter + Size(r)`.
   */
  function Size(r: Regex): (n: int)
    requires IsPrimitive(r)
    ensures 1 <= n
  {
    match r
    case Epsilon => 1
    case Char(_) => 1
    case Set(_) => 1
    case Seqn(a, b) => Size(a) + 1 + Size(b)
    case Or(a, b) => 1 + Size(a) + 1 + Size(b) + 1
    case Star(a) => 1 + Size(a) + 1
  }

  /**
   * The transitions the Thompson construction adds for the primitive `r`, built from
   * `current` with the counter at `counter`, case by case:
   * - `Epsilon` and `Char(c)`: one edge from `current` to the fresh state `counter`;
   * - `Set`: an edge from `current` to `counter` on every character of the set;
   * - `Seqn`: the left part, an ε-edge from its exit to a fresh entry of the right
   *   part, and the right part;
   * - `Or`: both branches from fresh entries, an ε-edge from `current` to the two
   *   entries, and ε-edges from both branch exits to a fresh end state;
   * - `Star`: the body from a fresh entry, and ε-edges from its exit and from `current`
   *   to the body entry and to a fresh state after it.
   * The tables are joined, and the single ε-edges set, in the order the Rust code
   * writes them, later ones winning, as `expand_trans` does.
   */
  ghost function EdgesOf(r: Regex, counter: int, current: int): Delta
    requires IsPrimitive(r)
  {
    match r
    case Epsilon => map[(current, EPSILON_CHR) := {counter}]
    case Char(c) => map[(current, c) := {counter}]
    case Set(chars) => SetMap(current, chars, {counter})
    case Seqn(a, b) =>
      var rightIn := counter + Size(a);
      SeqnTable(EdgesOf(a, counter, current), EdgesOf(b, rightIn + 1, rightIn), rightIn)
    case Or(a, b) =>
      var rightIn := counter + 1 + Size(a);
      var end := rightIn + 1 + Size(b);
      OrTable(EdgesOf(a, counter + 1, counter), EdgesOf(b, rightIn + 1, rightIn), current, counter, rightIn, end)
    case Star(a) =>
      var after := counter + 1 + Size(a);
      StarTable(EdgesOf(a, counter + 1, counter), current, counter, after)
  }

  /** `Seqn`: the left table `ea`, an ε-edge from its exit to the right entry `rightIn`, and the right table `eb`. */
  function SeqnTable(ea: Delta, eb: Delta, rightIn: int): Delta {
    ea[(rightIn - 1, EPSILON_CHR) := {rightIn}] + eb
  }

  /**
   * `Or`: the branch tables `ea` and `eb`, an ε-edge from `current` to the two entries,
   * and ε-edges from both branch exits to the end state.
   */
  function OrTable(ea: Delta, eb: Delta, current: int, leftIn: int, rightIn: int, end: int): Delta {
    (ea + eb)[(current, EPSILON_CHR) := {leftIn, rightIn}][(rightIn - 1, EPSILON_CHR) := {end}][(end - 1, EPSILON_CHR) := {end}]
  }

  /**
   * `Star`: the body table `ea`, and ε-edges from its exit and from `current` to the
   * body entry and to the state after it.
   */
  function StarTable(ea: Delta, current: int, regIn: int, after: int): Delta {
    ea[(after - 1, EPSILON_CHR) := {regIn, after}][(current, EPSILON_CHR) := {regIn, after}]
  }

  /**
   * The tables written at the top level of the primitive `r`, in the order of the
   * Rust code: `EdgesOf` is their union, later ones winning.
   */
  ghost function Writes(r: Regex, counter: int, current: int): seq<Delta>
    requires IsPrimitive(r)
  {
    match r
    case Epsilon => [EdgesOf(r, counter, current)]
    case Char(_) => [EdgesOf(r, counter, current)]
    case Set(_) => [EdgesOf(r, counter, current)]
    case Seqn(a, b) =>
      var rightIn := counter + Size(a);
      SeqnWrites(EdgesOf(a, counter, current), EdgesOf(b, rightIn + 1, rightIn), rightIn)
    case Or(a, b) =>
      var rightIn := counter + 1 + Size(a);
      var end := rightIn + 1 + Size(b);
      OrWrites(EdgesOf(a, counter + 1, counter), EdgesOf(b, rightIn + 1, rightIn), current, counter, rightIn, end)
    case Star(a) =>
      var after := counter + 1 + Size(a);
      StarWrites(EdgesOf(a, counter + 1, counter), current, counter, after)
  }

  /** The writes of the `Seqn` case, whose union is `SeqnTable`. */
  function SeqnWrites(ea: Delta, eb: Delta, rightIn: int): seq<Delta> {
    [ea, map[(rightIn - 1, EPSILON_CHR) := {rightIn}], eb]
  }

  /** The writes of the `Or` case, whose union is `OrTable`. */
  function OrWrites(ea: Delta, eb: Delta, current: int, leftIn: int, rightIn: int, end: int): seq<Delta> {
    [ea, eb, map[(current, EPSILON_CHR) := {leftIn, rightIn}], map[(rightIn - 1, EPSILON_CHR) := {end}],
     map[(end - 1, EPSILON_CHR) := {end}]]
  }

  /** The writes of the `Star` case, whose union is `StarTable`. */
  function StarWrites(ea: Delta, current: int, regIn: int, after: int): seq<Delta> {
    [ea, map[(after - 1, EPSILON_CHR) := {regIn, after}], map[(current, EPSILON_CHR) := {regIn, after}]]
  }

  /** The automaton built from the primitive `r`: initial state `counter`, fragment from `counter + 1`. */
  ghost function PrimitiveNfa(r: Regex, counter: int): NFA
    requires IsPrimitive(r)
  {
    NFA(EdgesOf(r, counter + 1, counter), counter, {counter + Size(r)})
  }

  /** The automaton `to_nfa` builds from `r` with the counter at `counter`. */
  ghost function ThompsonNfa(r: Regex, counter: int): NFA
    requires NameFree(r)
  {
    PrimitiveNfa(Normal(r), counter)
  }

  /** Every entry of `a` is in `b`, unchanged. */
  ghost predicate SubTable(a: Delta, b: Delta) {
    forall s, c :: (s, c) in a ==> (s, c) in b && b[(s, c)] == a[(s, c)]
  }

  /* ---------------- Properties of the construction ---------------- */

  /**
   * The layout of a fragment built from `current` with the counter at `lo` and left at
   * `hi`: its keys leave `current` or one of the states `[lo, hi - 1)` allocated for it,
   * so its exit `hi - 1` has no edges, and every edge leads into `[lo, hi)`.
   */
  ghost predicate Laid(e: Delta, current: int, lo: int, hi: int) {
    && (forall s, c :: (s, c) in e ==> s == current || lo <= s < hi - 1)
    && (forall s, c, t :: (s, c) in e && t in e[(s, c)] ==> lo <= t < hi)
  }

  /** The `Seqn` table keeps the layout of its two parts. */
  lemma SeqnLaid(ea: Delta, eb: Delta, current: int, counter: int, c1: int, hi: int)
    requires counter < c1 < hi - 1
    requires Laid(ea, current, counter, c1) && Laid(eb, c1, c1 + 1, hi)
    ensures Laid(SeqnTable(ea, eb, c1), current, counter, hi)
  {
  }

  /** The `Or` table keeps the layout of its two branches. */
  lemma OrLaid(ea: Delta, eb: Delta, current: int, counter: int, c2: int, c4: int)
    requires counter + 1 < c2 < c4 - 1
    requires Laid(ea, counter, counter + 1, c2) && Laid(eb, c2, c2 + 1, c4)
    ensures Laid(OrTable(ea, eb, current, counter, c2, c4), current, counter, c4 + 1)
  {
  }

  /** The `Star` table keeps the layout of its body. */
  lemma StarLaid(ea: Delta, current: int, counter: int, c2: int)
    requires counter + 1 < c2
    requires Laid(ea, counter, counter + 1, c2)
    ensures Laid(StarTable(ea, current, counter, c2), current, counter, c2 + 1)
  {
  }

  /**
   * Every fragment is laid out in the states allocated for it: the counter moves from
   * `counter` to `counter + Size(r)`. (The table is passed in as `e`.)
   */
  lemma {:induction false} EdgesLayout(r: Regex, counter: int, current: int, e: Delta)
    requires IsPrimitive(r) && e == EdgesOf(r, counter, current)
    ensures Laid(e, current, counter, counter + Size(r))
    decreases r, 1
  {
    match r
    case Epsilon =>
    case Char(_) =>
    case Set(chars) => SetMapPoints(current, chars, {counter});
    case Seqn(a, b) => SeqnLayout(a, b, counter, current, e);
    case Or(a, b) => OrLayout(a, b, counter, current, e);
    case Star(a) => StarLayout(a, counter, current, e);
  }

  lemma {:induction false} SeqnLayout(a: Regex, b: Regex, counter: int, current: int, e: Delta)
    requires IsPrimitive(a) && IsPrimitive(b) && e == EdgesOf(Seqn(a, b), counter, current)
    ensures Laid(e, current, counter, counter + Size(Seqn(a, b)))
    decreases Seqn(a, b), 0
  {
    var c1 := counter + Size(a);
    var ea, eb := EdgesOf(a, counter, current), EdgesOf(b, c1 + 1, c1);
    EdgesLayout(a, counter, current, ea);
    EdgesLayout(b, c1 + 1, c1, eb);
    SeqnUnfold(a, b, counter, current, c1, ea, eb);
    SeqnLaid(ea, eb, current, counter, c1, c1 + 1 + Size(b));
  }

  lemma {:induction false} OrLayout(a: Regex, b: Regex, counter: int, current: int, e: Delta)
    requires IsPrimitive(a) && IsPrimitive(b) && e == EdgesOf(Or(a, b), counter, current)
    ensures Laid(e, current, counter, counter + Size(Or(a, b)))
    decreases Or(a, b), 0
  {
    var c2 := counter + 1 + Size(a);
    var c4 := c2 + 1 + Size(b);
    var ea, eb := EdgesOf(a, counter + 1, counter), EdgesOf(b, c2 + 1, c2);
    EdgesLayout(a, counter + 1, counter, ea);
    EdgesLayout(b, c2 + 1, c2, eb);
    OrUnfold(a, b, counter, current, c2, c4, ea, eb);
    OrLaid(ea, eb, current, counter, c2, c4);
  }

  lemma {:induction false} StarLayout(a: Regex, counter: int, current: int, e: Delta)
    requires IsPrimitive(a) && e == EdgesOf(Star(a), counter, current)
    ensures Laid(e, current, counter, counter + Size(Star(a)))
    decreases Star(a), 0
  {
    var c2 := counter + 1 + Size(a);
    var ea := EdgesOf(a, counter + 1, counter);
    EdgesLayout(a, counter + 1, counter, ea);
    StarUnfold(a, counter, current, c2, ea);
    StarLaid(ea, current, counter, c2);
  }

  /** In the `Seqn` table no write of the construction is overwritten by a later one. */
  lemma SeqnKept(ea: Delta, eb: Delta, current: int, counter: int, c1: int, hi: int)
    requires current < counter < c1 < hi - 1
    requires Laid(ea, current, counter, c1) && Laid(eb, c1, c1 + 1, hi)
    ensures forall w :: w in SeqnWrites(ea, eb, c1) ==> SubTable(w, SeqnTable(ea, eb, c1))
  {
  }

  /** In the `Or` table no write of the construction is overwritten by a later one. */
  lemma OrKept(ea: Delta, eb: Delta, current: int, counter: int, c2: int, c4: int)
    requires current < counter && counter + 1 < c2 < c4 - 1
    requires Laid(ea, counter, counter + 1, c2) && Laid(eb, c2, c2 + 1, c4)
    ensures forall w :: w in OrWrites(ea, eb, current, counter, c2, c4) ==> SubTable(w, OrTable(ea, eb, current, counter, c2, c4))
  {
  }

  /** In the `Star` table no write of the construction is overwritten by a later one. */
  lemma StarKept(ea: Delta, current: int, counter: int, c2: int)
    requires current < counter && counter + 1 < c2
    requires Laid(ea, counter, counter + 1, c2)
    ensures forall w :: w in StarWrites(ea, current, counter, c2) ==> SubTable(w, StarTable(ea, current, counter, c2))
  {
  }

  /**
   * No write is lost: when the entry state lies below the fresh states, every table the
   * construction writes at the top level of `r` survives unchanged in the result, so the
   * overwrite inside `expand_trans` never discards a transition.
   */
  lemma NoWriteLost(r: Regex, counter: int, current: int, e: Delta)
    requires IsPrimitive(r) && current < counter && e == EdgesOf(r, counter, current)
    ensures forall w :: w in Writes(r, counter, current) ==> SubTable(w, e)
  {
    match r
    case Epsilon =>
    case Char(_) =>
    case Set(_) =>
    case Seqn(a, b) => SeqnNoWriteLost(a, b, counter, current, e);
    case Or(a, b) => OrNoWriteLost(a, b, counter, current, e);
    case Star(a) => StarNoWriteLost(a, counter, current, e);
  }

  /** `NoWriteLost` for a `Seqn`. */
  lemma SeqnNoWriteLost(a: Regex, b: Regex, counter: int, current: int, e: Delta)
    requires IsPrimitive(a) && IsPrimitive(b) && current < counter && e == EdgesOf(Seqn(a, b), counter, current)
    ensures forall w :: w in Writes(Seqn(a, b), counter, current) ==> SubTable(w, e)
  {
    var c1 := counter + Size(a);
    var ea, eb := EdgesOf(a, counter, current), EdgesOf(b, c1 + 1, c1);
    EdgesLayout(a, counter, current, ea);
    EdgesLayout(b, c1 + 1, c1, eb);
    SeqnUnfold(a, b, counter, current, c1, ea, eb);
    SeqnKept(ea, eb, current, counter, c1, c1 + 1 + Size(b));
  }

  /** `NoWriteLost` for an `Or`. */
  lemma OrNoWriteLost(a: Regex, b: Regex, counter: int, current: int, e: Delta)
    requires IsPrimitive(a) && IsPrimitive(b) && current < counter && e == EdgesOf(Or(a, b), counter, current)
    ensures forall w :: w in Writes(Or(a, b), counter, current) ==> SubTable(w, e)
  {
    var c2 := counter + 1 + Size(a);
    var c4 := c2 + 1 + Size(b);
    var ea, eb := EdgesOf(a, counter + 1, counter), EdgesOf(b, c2 + 1, c2);
    EdgesLayout(a, counter + 1, counter, ea);
    EdgesLayout(b, c2 + 1, c2, eb);
    OrUnfold(a, b, counter, current, c2, c4, ea, eb);
    OrKept(ea, eb, current, counter, c2, c4);
  }

  /** `NoWriteLost` for a `Star`. */
  lemma StarNoWriteLost(a: Regex, counter: int, current: int, e: Delta)
    requires IsPrimitive(a) && current < counter && e == EdgesOf(Star(a), counter, current)
    ensures forall w :: w in Writes(Star(a), counter, current) ==> SubTable(w, e)
  {
    var c2 := counter + 1 + Size(a);
    var ea := EdgesOf(a, counter + 1, counter);
    EdgesLayout(a, counter + 1, counter, ea);
    StarUnfold(a, counter, current, c2, ea);
    StarKept(ea, current, counter, c2);
  }

  /**
   * The construction leaves the entries already in the table alone when they leave
   * states below the counter other than `current`.
   */
  lemma TableKept(delta: Delta, r: Regex, counter: int, current: int)
    requires IsPrimitive(r)
    requires forall s, c :: (s, c) in delta ==> s < counter && s != current
    ensures SubTable(delta, delta + EdgesOf(r, counter, current))
  {
    EdgesLayout(r, counter, current, EdgesOf(r, counter, current));
  }

  /**
   * The automaton of `to_nfa` has its initial state at the counter on entry, its single
   * final state at the last state allocated, its keys in `[counter, hi - 1)` and its
   * edges into `(counter, hi)`, where `hi` is the counter afterwards.
   */
  lemma NfaLayout(r: Regex, counter: int)
    requires IsPrimitive(r)
    ensures var nfa, hi := PrimitiveNfa(r, counter), counter + 1 + Size(r);
      && nfa.initial == counter && nfa.finals == {hi - 1} && counter < hi - 1
      && (forall s, c :: (s, c) in nfa.delta ==> counter <= s < hi - 1)
      && (forall s, c, t :: (s, c) in nfa.delta && t in nfa.delta[(s, c)] ==> counter < t < hi)
  {
    EdgesLayout(r, counter + 1, counter, PrimitiveNfa(r, counter).delta);
  }

  /* ---------------- The construction, as the Rust code runs it ---------------- */

  /** `expand_trans` sets one entry. */
  lemma ExpandIsUpdate(d: Delta, key: (int, char), v: set<int>)
    ensures ExpandTrans(d, key, v) == d[key := v]
  {
  }

  /** Linking the single exit `exit` sets one ε-entry. */
  lemma LinkOne(d: Delta, exit: int, target: set<int>)
    ensures d + ExitMap({exit}, target) == d[(exit, EPSILON_CHR) := target]
  {
    ExitMapAdd({}, exit, target);
    assert {} + {exit} == {exit};
  }

  /**
   * The `for` loop of the `Set` case: `expand_trans(delta, (current, c), target)` for
   * every character `c` of the set.
   */
  method SetEdges(delta: Delta, current: int, chars: set<char>, target: set<int>) returns (newDelta: Delta)
    ensures newDelta == delta + SetMap(current, chars, target)
  {
    newDelta := delta;
    var rest := chars;
    while exists c :: c in rest
      invariant rest <= chars
      invariant newDelta == delta + SetMap(current, chars - rest, target)
      decreases rest
    {
      var c :| c in rest;
      SetEdgesStep(delta, newDelta, current, chars, rest, c, target);
      newDelta := ExpandTrans(newDelta, (current, c), target);
      rest := rest - {c};
    }
    assert chars - rest == chars;
  }

  /** One round of the loop of `SetEdges` keeps its invariant. */
  lemma SetEdgesStep(delta: Delta, d: Delta, current: int, chars: set<char>, rest: set<char>, c: char, target: set<int>)
    requires c in rest && rest <= chars && d == delta + SetMap(current, chars - rest, target)
    ensures ExpandTrans(d, (current, c), target) == delta + SetMap(current, chars - (rest - {c}), target)
  {
    ExpandIsUpdate(d, (current, c), target);
    SetMapAdd(current, chars - rest, c, target);
    UpdateUnion(delta, SetMap(current, chars - rest, target), (current, c), target);
    assert chars - (rest - {c}) == (chars - rest) + {c};
  }

  /**
   * The `for` loops over a sub-automaton's exit set:
   * `expand_trans(delta, (state, EPSILON_CHR), target)` for every exit `state`.
   */
  method LinkExits(delta: Delta, outs: set<int>, target: set<int>) returns (newDelta: Delta)
    ensures newDelta == delta + ExitMap(outs, target)
  {
    newDelta := delta;
    var rest := outs;
    while exists s :: s in rest
      invariant rest <= outs
      invariant newDelta == delta + ExitMap(outs - rest, target)
      decreases rest
    {
      var s :| s in rest;
      LinkExitsStep(delta, newDelta, outs, rest, s, target);
      newDelta := ExpandTrans(newDelta, (s, EPSILON_CHR), target);
      rest := rest - {s};
    }
    assert outs - rest == outs;
  }

  /** One round of the loop of `LinkExits` keeps its invariant. */
  lemma LinkExitsStep(delta: Delta, d: Delta, outs: set<int>, rest: set<int>, s: int, target: set<int>)
    requires s in rest && rest <= outs && d == delta + ExitMap(outs - rest, target)
    ensures ExpandTrans(d, (s, EPSILON_CHR), target) == delta + ExitMap(outs - (rest - {s}), target)
  {
    ExpandIsUpdate(d, (s, EPSILON_CHR), target);
    ExitMapAdd(outs - rest, s, target);
    UpdateUnion(delta, ExitMap(outs - rest, target), (s, EPSILON_CHR), target);
    assert outs - (rest - {s}) == (outs - rest) + {s};
  }

  /** Setting an entry after a union is setting it in the right operand. */
  lemma UpdateUnion(d: Delta, e: Delta, key: (int, char), v: set<int>)
    ensures (d + e)[key := v] == d + e[key := v]
  {
  }

  lemma UnionAssoc(a: Delta, b: Delta, c: Delta)
    ensures (a + b) + c == a + (b + c)
  {
  }

  /** `EdgesOf` of a `Seqn`, one level down, with the right entry `c1` allocated after the left part. */
  lemma SeqnUnfold(a: Regex, b: Regex, counter: int, current: int, c1: int, ea: Delta, eb: Delta)
    requires IsPrimitive(a) && IsPrimitive(b)
    requires c1 == counter + Size(a)
    requires ea == EdgesOf(a, counter, current) && eb == EdgesOf(b, c1 + 1, c1)
    ensures EdgesOf(Seqn(a, b), counter, current) == SeqnTable(ea, eb, c1)
  {
  }

  /** `EdgesOf` of an `Or`, one level down, with the right entry `c2` and the end state `c4`. */
  lemma OrUnfold(a: Regex, b: Regex, counter: int, current: int, c2: int, c4: int, ea: Delta, eb: Delta)
    requires IsPrimitive(a) && IsPrimitive(b)
    requires c2 == counter + 1 + Size(a) && c4 == c2 + 1 + Size(b)
    requires ea == EdgesOf(a, counter + 1, counter) && eb == EdgesOf(b, c2 + 1, c2)
    ensures EdgesOf(Or(a, b), counter, current) == OrTable(ea, eb, current, counter, c2, c4)
  {
  }

  /** `EdgesOf` of a `Star`, one level down, with the state `c2` after the body. */
  lemma StarUnfold(a: Regex, counter: int, current: int, c2: int, ea: Delta)
    requires IsPrimitive(a)
    requires c2 == counter + 1 + Size(a)
    requires ea == EdgesOf(a, counter + 1, counter)
    ensures EdgesOf(Star(a), counter, current) == StarTable(ea, current, counter, c2)
  {
  }

  /** The table of the `Seqn` case, assembled from its steps. */
  lemma SeqnAssembled(delta: Delta, ea: Delta, eb: Delta, e: Delta, c1: int, leftOut: set<int>,
                      d1: Delta, d2: Delta, newDelta: Delta)
    requires e == SeqnTable(ea, eb, c1)
    requires leftOut == {c1 - 1}
    requires d1 == delta + ea && d2 == d1 + ExitMap(leftOut, {c1}) && newDelta == d2 + eb
    ensures newDelta == delta + e
  {
    LinkOne(d1, c1 - 1, {c1});
    UpdateUnion(delta, ea, (c1 - 1, EPSILON_CHR), {c1});
    UnionAssoc(delta, ea[(c1 - 1, EPSILON_CHR) := {c1}], eb);
  }

  /** The steps of the `Or` case, from the two sub-automata to the closing ε-edges, build its table. */
  lemma OrBuilt(a: Regex, b: Regex, delta: Delta, counter: int, current: int, c2: int, c4: int,
                leftOut: set<int>, rightOut: set<int>, d1: Delta, d2: Delta, newDelta: Delta)
    requires IsPrimitive(a) && IsPrimitive(b)
    requires c2 == counter + 1 + Size(a) && leftOut == {c2 - 1} && d1 == delta + EdgesOf(a, counter + 1, counter)
    requires c4 == c2 + 1 + Size(b) && rightOut == {c4 - 1} && d2 == d1 + EdgesOf(b, c2 + 1, c2)
    requires newDelta == ExpandTrans(d2, (current, EPSILON_CHR), {counter, c2})
                         + ExitMap(leftOut, {c4}) + ExitMap(rightOut, {c4})
    ensures c4 + 1 == counter + Size(Or(a, b))
    ensures newDelta == delta + EdgesOf(Or(a, b), counter, current)
  {
    var ea, eb := EdgesOf(a, counter + 1, counter), EdgesOf(b, c2 + 1, c2);
    OrUnfold(a, b, counter, current, c2, c4, ea, eb);
    OrAssembled(delta, ea, eb, EdgesOf(Or(a, b), counter, current), current, counter, c2, c4,
                leftOut, rightOut, d1, d2, newDelta);
  }

  /** The table of the `Or` case, assembled from its steps. */
  lemma OrAssembled(delta: Delta, ea: Delta, eb: Delta, e: Delta, current: int, leftIn: int, rightIn: int, end: int,
                    leftOut: set<int>, rightOut: set<int>, d1: Delta, d2: Delta, newDelta: Delta)
    requires e == OrTable(ea, eb, current, leftIn, rightIn, end)
    requires leftOut == {rightIn - 1} && rightOut == {end - 1}
    requires d1 == delta + ea && d2 == d1 + eb
    requires newDelta == ExpandTrans(d2, (current, EPSILON_CHR), {leftIn, rightIn})
                         + ExitMap(leftOut, {end}) + ExitMap(rightOut, {end})
    ensures newDelta == delta + e
  {
    var e0 := ea + eb;
    var e1 := e0[(current, EPSILON_CHR) := {leftIn, rightIn}];
    var e2 := e1[(rightIn - 1, EPSILON_CHR) := {end}];
    var d3 := ExpandTrans(d2, (current, EPSILON_CHR), {leftIn, rightIn});
    var d4 := d3 + ExitMap({rightIn - 1}, {end});
    UnionAssoc(delta, ea, eb);
    ExpandIsUpdate(d2, (current, EPSILON_CHR), {leftIn, rightIn});
    UpdateUnion(delta, e0, (current, EPSILON_CHR), {leftIn, rightIn});
    LinkOne(d3, rightIn - 1, {end});
    UpdateUnion(delta, e1, (rightIn - 1, EPSILON_CHR), {end});
    LinkOne(d4, end - 1, {end});
    UpdateUnion(delta, e2, (end - 1, EPSILON_CHR), {end});
  }

  /** The table of the `Star` case, assembled from its steps. */
  lemma StarAssembled(delta: Delta, ea: Delta, e: Delta, current: int, regIn: int, after: int, regOut: set<int>,
                      d1: Delta, d2: Delta, newDelta: Delta)
    requires e == StarTable(ea, current, regIn, after)
    requires regOut == {after - 1}
    requires d1 == delta + ea && d2 == d1 + ExitMap(regOut, {regIn, after})
    requires newDelta == ExpandTrans(d2, (current, EPSILON_CHR), {regIn, after})
    ensures newDelta == delta + e
  {
    var e1 := ea[(after - 1, EPSILON_CHR) := {regIn, after}];
    LinkOne(d1, after - 1, {regIn, after});
    UpdateUnion(delta, ea, (after - 1, EPSILON_CHR), {regIn, after});
    ExpandIsUpdate(d2, (current, EPSILON_CHR), {regIn, after});
    UpdateUnion(delta, e1, (current, EPSILON_CHR), {regIn, after});
  }

  /**
   * `create_nfa`: builds `r` from `current` with the counter at `counter`, adding the
   * table `EdgesOf` of its normal form and moving the counter on by its `Size`; the
   * single exit is the last state allocated. Sugar is first normalised without a name
   * table, as the Rust fallback case does.
   */
  method CreateNfa(r: Regex, delta: Delta, counter: int, current: int)
    returns (newDelta: Delta, newCounter: int, exits: set<int>)
    requires NameFree(r)
    ensures newCounter == counter + Size(Normal(r))
    ensures exits == {newCounter - 1}
    ensures newDelta == delta + EdgesOf(Normal(r), counter, current)
    decreases if IsPrimitive(r) then 0 else 1, r, 1
  {
    match r
    case Epsilon =>
      exits := {counter};
      newDelta := ExpandTrans(delta, (current, EPSILON_CHR), exits);
      newCounter := counter + 1;
      ExpandIsUpdate(delta, (current, EPSILON_CHR), exits);
    case Char(c) =>
      exits := {counter};
      newCounter := counter + 1;
      newDelta := ExpandTrans(delta, (current, c), exits);
      ExpandIsUpdate(delta, (current, c), exits);
    case Set(chars) =>
      exits := {counter};
      newCounter := counter + 1;
      newDelta := SetEdges(delta, current, chars, exits);
    case Seqn(left, right) =>
      newDelta, newCounter, exits := CreateSeqn(left, right, delta, counter, current);
    case Or(left, right) =>
      newDelta, newCounter, exits := CreateOr(left, right, delta, counter, current);
    case Star(inner) =>
      newDelta, newCounter, exits := CreateStar(inner, delta, counter, current);
    case Range(_, _) | Plus(_) | Str(_) | Optional(_) =>
      newDelta, newCounter, exits := CreateSugar(r, delta, counter, current);
  }

  /**
   * The fallback case: sugar is rewritten into primitives by `to_regular` without a name
   * table, and the result is built.
   */
  method CreateSugar(r: Regex, delta: Delta, counter: int, current: int)
    returns (newDelta: Delta, newCounter: int, exits: set<int>)
    requires NameFree(r) && !IsPrimitive(r)
    ensures newCounter == counter + Size(Normal(r))
    ensures exits == {newCounter - 1}
    ensures newDelta == delta + EdgesOf(Normal(r), counter, current)
    decreases 1, r, 0
  {
    NormalIsToRegular(r);
    var regular := ToRegular(r, None).value;
    NormalOfPrimitive(regular);
    newDelta, newCounter, exits := CreateNfa(regular, delta, counter, current);
  }

  /** The `Seqn` case: the left part's exit gets an ε-edge to a fresh entry of the right part. */
  method CreateSeqn(left: Regex, right: Regex, delta: Delta, counter: int, current: int)
    returns (newDelta: Delta, newCounter: int, exits: set<int>)
    requires NameFree(left) && NameFree(right)
    ensures newCounter == counter + Size(Seqn(Normal(left), Normal(right)))
    ensures exits == {newCounter - 1}
    ensures newDelta == delta + EdgesOf(Seqn(Normal(left), Normal(right)), counter, current)
    decreases if IsPrimitive(Seqn(left, right)) then 0 else 1, Seqn(left, right), 0
  {
    var d1, c1, leftOut := CreateNfa(left, delta, counter, current);
    var rightIn := c1;
    var c2 := c1 + 1;
    var d2 := LinkExits(d1, leftOut, {rightIn});
    newDelta, newCounter, exits := CreateNfa(right, d2, c2, rightIn);
    var ea, eb := EdgesOf(Normal(left), counter, current), EdgesOf(Normal(right), c2, rightIn);
    SeqnUnfold(Normal(left), Normal(right), counter, current, c1, ea, eb);
    SeqnAssembled(delta, ea, eb, EdgesOf(Seqn(Normal(left), Normal(right)), counter, current), c1, leftOut, d1, d2, newDelta);
  }

  /** The `Or` case: a fresh entry for each branch, and both exits lead to a fresh end state. */
  method CreateOr(left: Regex, right: Regex, delta: Delta, counter: int, current: int)
    returns (newDelta: Delta, newCounter: int, exits: set<int>)
    requires NameFree(left) && NameFree(right)
    ensures newCounter == counter + Size(Or(Normal(left), Normal(right)))
    ensures exits == {newCounter - 1}
    ensures newDelta == delta + EdgesOf(Or(Normal(left), Normal(right)), counter, current)
    decreases if IsPrimitive(Or(left, right)) then 0 else 1, Or(left, right), 0
  {
    var leftIn := counter;
    var d1, c2, leftOut := CreateNfa(left, delta, counter + 1, leftIn);
    var rightIn := c2;
    var d2, c4, rightOut := CreateNfa(right, d1, c2 + 1, rightIn);
    exits := {c4};
    newCounter := c4 + 1;
    newDelta := CloseOr(d2, current, leftIn, rightIn, leftOut, rightOut, c4);
    OrBuilt(Normal(left), Normal(right), delta, counter, current, c2, c4, leftOut, rightOut, d1, d2, newDelta);
  }

  /**
   * The closing steps of the `Or` case: the ε-edge from `current` to both branch
   * entries, then the ε-edges from each branch's exits to the end state.
   */
  method CloseOr(delta: Delta, current: int, leftIn: int, rightIn: int, leftOut: set<int>, rightOut: set<int>, end: int)
    returns (newDelta: Delta)
    ensures newDelta == ExpandTrans(delta, (current, EPSILON_CHR), {leftIn, rightIn})
                        + ExitMap(leftOut, {end}) + ExitMap(rightOut, {end})
  {
    var d1 := ExpandTrans(delta, (current, EPSILON_CHR), {leftIn, rightIn});
    var d2 := LinkExits(d1, leftOut, {end});
    newDelta := LinkExits(d2, rightOut, {end});
  }

  /**
   * The `Star` case: a fresh entry for the body and a fresh state after it; the
   * current state and the body's exit both get ε-edges to those two.
   */
  method CreateStar(inner: Regex, delta: Delta, counter: int, current: int)
    returns (newDelta: Delta, newCounter: int, exits: set<int>)
    requires NameFree(inner)
    ensures newCounter == counter + Size(Star(Normal(inner)))
    ensures exits == {newCounter - 1}
    ensures newDelta == delta + EdgesOf(Star(Normal(inner)), counter, current)
    decreases if IsPrimitive(Star(inner)) then 0 else 1, Star(inner), 0
  {
    var regIn := counter;
    var d1, c2, regOut := CreateNfa(inner, delta, counter + 1, regIn);
    var stateAfter := c2;
    newCounter := c2 + 1;
    var d2 := LinkExits(d1, regOut, {regIn, stateAfter});
    newDelta := ExpandTrans(d2, (current, EPSILON_CHR), {regIn, stateAfter});
    exits := {stateAfter};
    var ea := EdgesOf(Normal(inner), counter + 1, regIn);
    StarUnfold(Normal(inner), counter, current, c2, ea);
    StarAssembled(delta, ea, EdgesOf(Star(Normal(inner)), counter, current), current, regIn, stateAfter, regOut, d1, d2, newDelta);
  }

  /**
   * `to_nfa`: the automaton built from an empty table, with the counter on entry as the
   * initial state and the exit of `create_nfa` as the final states.
   */
  method ToNfa(r: Regex, counter: int) returns (nfa: NFA, newCounter: int)
    requires NameFree(r)
    ensures nfa == ThompsonNfa(r, counter)
    ensures newCounter == counter + 1 + Size(Normal(r))
  {
    var first := counter;
    var delta: Delta := map[];
    var d, finals;
    d, newCounter, finals := CreateNfa(r, delta, counter + 1, first);
    assert delta + EdgesOf(Normal(r), counter + 1, first) == EdgesOf(Normal(r), counter + 1, first);
    nfa := NFA(d, first, finals);
  }
}
