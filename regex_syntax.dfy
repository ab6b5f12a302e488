/**
 * The pattern language and its normaliser (src/regex.rs): the `Regex` datatype with
 * its primitive and sugared forms, the helpers `from_str`, `from_range` and
 * `all_except`, and `to_regular`, which rewrites sugar into primitives and
 * resolves names through a name table.
 */
module RegexSyntax {
  import opened Wrappers

  datatype Regex =
    | Epsilon
    | Char(c: char)
    | Seqn(left: Regex, right: Regex)
    | Or(left: Regex, right: Regex)
    | Set(chars: set<char>)
    | Star(inner: Regex)
    | Range(lo: char, hi: char)
    | Plus(inner: Regex)
    | Str(text: string)
    | Optional(inner: Regex)
    | Name(name: string)

  /** The name table consulted while normalising. */
  type NamesList = map<string, Regex>

  /** Why a `Name` could not be resolved (the two messages of `NameNotFoudError`). */
  datatype NameError = NoNameList | NameNotFound(name: string)

  /** Built only from the primitives `Epsilon`, `Char`, `Set`, `Seqn`, `Or` and `Star`. */
  predicate IsPrimitive(r: Regex) {
    match r
    case Epsilon => true
    case Char(_) => true
    case Set(_) => true
    case Seqn(a, b) => IsPrimitive(a) && IsPrimitive(b)
    case Or(a, b) => IsPrimitive(a) && IsPrimitive(b)
    case Star(a) => IsPrimitive(a)
    case _ => false
  }

  /**
   * Reads back the text of a chain `Seqn(Char(c0), Seqn(Char(c1), ... Epsilon))`;
   * any other shape has no text.
   */
  function AsString(r: Regex): Option<string> {
    match r
    case Epsilon => Some([])
    case Seqn(Char(c), rest) =>
      (match AsString(rest)
       case Some(t) => Some([c] + t)
       case None => None)
    case _ => None
  }

  /** `from_str`: one `Char` per character, in order, closed by `Epsilon`. */
  function FromStr(s: string): (r: Regex)
    ensures IsPrimitive(r)
    ensures AsString(r) == Some(s)
  {
    if |s| == 0 then Epsilon
    else
      assert s == [s[0]] + s[1..];
      Seqn(Char(s[0]), FromStr(s[1..]))
  }

  /** A chain that reads back as `s` is exactly `from_str(s)`. */
  lemma {:induction false} FromStrOfAsString(r: Regex, s: string)
    requires AsString(r) == Some(s)
    ensures FromStr(s) == r
    decreases r
  {
    match r
    case Epsilon =>
    case Seqn(Char(c), rest) =>
      var t := AsString(rest).value;
      assert s == [c] + t;
      assert s[1..] == t;
      FromStrOfAsString(rest, t);
  }

  /**
   * `c` lies from `lo` to `hi` inclusive. A comparison alone gives the verifier nothing
   * to match the set comprehension of `FromRange` on; this predicate is that term.
   */
  predicate Between(lo: char, hi: char, c: char) {
    lo <= c <= hi
  }

  /** `from_range`: the set of every character from `lo` to `hi` inclusive (empty when `lo > hi`). */
  function FromRange(lo: char, hi: char): (r: Regex)
    ensures r.Set?
    ensures forall c :: c in r.chars <==> lo <= c <= hi
    ensures hi < lo ==> r.chars == {}
  {
    Set(set c: char | lo <= c <= hi && Between(lo, hi, c))
  }

  /** `all_except`: the characters with codes 0 to 126 that are not in `remove`. */
  function AllExcept(remove: set<char>): (r: Regex)
    ensures r.Set?
    ensures forall c :: c in r.chars <==> c as int <= 126 && c !in remove
  {
    Set(set c: char | 0 as char <= c <= 126 as char && c !in remove)
  }

  /**
   * Names have no cycle check in the source; termination is obtained from a rank for
   * every name such that each definition only mentions names of smaller rank.
   */
  function Bound(rank: map<string, nat>, r: Regex): nat {
    match r
    case Name(n) => if n in rank then rank[n] + 1 else 0
    case Seqn(a, b) => Max(Bound(rank, a), Bound(rank, b))
    case Or(a, b) => Max(Bound(rank, a), Bound(rank, b))
    case Star(a) => Bound(rank, a)
    case Plus(a) => Bound(rank, a)
    case Optional(a) => Bound(rank, a)
    case _ => 0
  }

  function Max(x: nat, y: nat): nat {
    if x < y then y else x
  }

  ghost predicate Ranked(names: NamesList, rank: map<string, nat>) {
    && names.Keys <= rank.Keys
    && forall n :: n in names ==> Bound(rank, names[n]) <= rank[n]
  }

  /** The name table has no cyclic references. */
  ghost predicate Acyclic(names: Option<NamesList>) {
    names.Some? ==> exists rank :: Ranked(names.value, rank)
  }

  ghost function RankOf(names: Option<NamesList>): map<string, nat>
    requires Acyclic(names)
  {
    if names.None? then map[] else var rank :| Ranked(names.value, rank); rank
  }

  /** Every name reachable from `r`, directly or through the table, is defined. */
  ghost predicate Resolves(r: Regex, names: Option<NamesList>)
    requires Acyclic(names)
    decreases Bound(RankOf(names), r), r
  {
    match r
    case Name(n) => names.Some? && n in names.value && Resolves(names.value[n], names)
    case Seqn(a, b) => Resolves(a, names) && Resolves(b, names)
    case Or(a, b) => Resolves(a, names) && Resolves(b, names)
    case Star(a) => Resolves(a, names)
    case Plus(a) => Resolves(a, names)
    case Optional(a) => Resolves(a, names)
    case _ => true
  }

  /**
   * `to_regular`: expands the sugar and resolves names. It succeeds exactly when every
   * reachable name resolves, its result is primitive, and it is the identity on
   * primitive input.
   */
  function ToRegular(r: Regex, names: Option<NamesList>): (res: Result<Regex, NameError>)
    requires Acyclic(names)
    ensures res.Ok? <==> Resolves(r, names)
    ensures res.Ok? ==> IsPrimitive(res.value)
    ensures IsPrimitive(r) ==> res == Ok(r)
    decreases Bound(RankOf(names), r), r
  {
    match r
    case Name(n) =>
      if names.None? then Err(NoNameList)
      else if n in names.value then ToRegular(names.value[n], names)
      else Err(NameNotFound(n))
    case Str(s) => Ok(FromStr(s))
    case Range(lo, hi) => Ok(FromRange(lo, hi))
    case Plus(a) =>
      var a' :- ToRegular(a, names);
      Ok(Seqn(a', Star(a')))
    case Optional(a) =>
      var a' :- ToRegular(a, names);
      Ok(Or(a', Epsilon))
    case Or(a, b) =>
      var a' :- ToRegular(a, names);
      var b' :- ToRegular(b, names);
      Ok(Or(a', b'))
    case Seqn(a, b) =>
      var a' :- ToRegular(a, names);
      var b' :- ToRegular(b, names);
      Ok(Seqn(a', b'))
    case Star(a) =>
      var a' :- ToRegular(a, names);
      Ok(Star(a'))
    case _ => Ok(r)
  }

  /** Normalising twice is normalising once; no name table is needed the second time. */
  lemma ToRegularIdempotent(r: Regex, names: Option<NamesList>)
    requires Acyclic(names)
    requires ToRegular(r, names).Ok?
    ensures ToRegular(ToRegular(r, names).value, None) == ToRegular(r, names)
  {
  }

  /** A name that is looked up without a table, or is absent from it, is an error. */
  lemma NameErrors(n: string, names: Option<NamesList>)
    requires Acyclic(names)
    ensures names.None? ==> ToRegular(Name(n), names) == Err(NoNameList)
    ensures names.Some? && n !in names.value ==> ToRegular(Name(n), names) == Err(NameNotFound(n))
    ensures names.Some? && n in names.value ==> ToRegular(Name(n), names) == ToRegular(names.value[n], names)
  {
  }

  /** The expansion rules of the sugar. */
  lemma SugarExpansion(r: Regex, names: Option<NamesList>)
    requires Acyclic(names)
    ensures r.Str? ==> ToRegular(r, names) == Ok(FromStr(r.text))
    ensures r.Range? ==> ToRegular(r, names) == Ok(FromRange(r.lo, r.hi))
    ensures r.Plus? && ToRegular(r.inner, names).Ok? ==>
      var a := ToRegular(r.inner, names).value; ToRegular(r, names) == Ok(Seqn(a, Star(a)))
    ensures r.Optional? && ToRegular(r.inner, names).Ok? ==>
      ToRegular(r, names) == Ok(Or(ToRegular(r.inner, names).value, Epsilon))
    ensures (r.Plus? || r.Optional?) && ToRegular(r.inner, names).Err? ==>
      ToRegular(r, names) == ToRegular(r.inner, names)
  {
  }
}
