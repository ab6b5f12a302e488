/**
 * The transition table shared by the Thompson construction and the NFA operations
 * (src/regex.rs, `EPSILON_CHR`, `Delta` and `expand_trans`).
 */
module Transitions {

  /** The reserved symbol that labels ε-transitions: the character with code 127. */
  const EPSILON_CHR: char := 127 as char

  /** Transition table: (state, symbol) to the set of successor states. */
  type Delta = map<(int, char), set<int>>

  /**
   * `expand_trans`: when the key is present its set is first extended with `out`,
   * and then the entry is unconditionally replaced by `out`, so the extension is lost.
   */
  function ExpandTrans(delta: Delta, key: (int, char), out: set<int>): (d: Delta)
    ensures d.Keys == delta.Keys + {key}
    ensures d[key] == out
    ensures forall k :: k in delta && k != key ==> d[k] == delta[k]
  {
    var extended := if key in delta then delta[key := delta[key] + out] else delta;
    extended[key := out]
  }

  /** The accumulating update: the new successors are added to whatever the key already had. */
  function UnionTrans(delta: Delta, key: (int, char), out: set<int>): (d: Delta)
    ensures d.Keys == delta.Keys + {key}
    ensures key in delta ==> d[key] == delta[key] + out
    ensures key !in delta ==> d[key] == out
    ensures forall k :: k in delta && k != key ==> d[k] == delta[k]
  {
    delta[key := if key in delta then delta[key] + out else out]
  }

  /**
   * The overwrite of `expand_trans` agrees with the accumulating update exactly when
   * it cannot lose anything: the key is new, or its old successors are all in `out`.
   */
  lemma ExpandTransIsUnionIff(delta: Delta, key: (int, char), out: set<int>)
    ensures ExpandTrans(delta, key, out) == UnionTrans(delta, key, out)
        <==> (key in delta ==> forall x :: x in delta[key] ==> x in out)
  {
    var e, u := ExpandTrans(delta, key, out), UnionTrans(delta, key, out);
    if key in delta && exists x :: x in delta[key] && x !in out {
      var lost :| lost in delta[key] && lost !in out;
      assert lost in u[key] && lost !in e[key];
    } else {
      assert e[key] == u[key];
      assert forall k :: k in e ==> e[k] == u[k];
    }
  }
}
