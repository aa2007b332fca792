/**
 Constraint systems and their transposition, from crates/groth16/src/lib.rs:
 constraints are recorded row by row and handed to the prover grouped by
 variable.
 */
module Circuit {
  import opened Polynomials

  datatype Index = Input(i: nat) | Aux(i: nat)

  type LinearCombination = seq<(Index, int)>

  datatype Constraint = Constraint(a: LinearCombination, b: LinearCombination, c: LinearCombination)

  /** One coefficient: the variable, the coefficient, and the row of the constraint. */
  datatype Term = Term(index: Index, coeff: int, row: nat)

  /** Coefficients grouped by variable, each group listing (coefficient, row). */
  type Groups = seq<(nat, seq<(int, nat)>)>

  datatype QAP = QAP(a: Groups, b: Groups, c: Groups, aConstraints: seq<nat>, bConstraints: seq<nat>)

  /** The position of a variable in the inputs followed by the auxiliary variables. */
  function VarOf(x: Index, p: nat): nat {
    match x
    case Input(i) => i
    case Aux(i) => p + i
  }

  // ------------------------------------------------------------ meaning

  /** Every variable is one of the first n. */
  ghost predicate TermsBelow(v: seq<Term>, p: nat, n: nat) {
    forall t :: t in v ==> VarOf(t.index, p) < n
  }

  /** The value of row u of the terms v under the assignment w. */
  ghost function RowSum(v: seq<Term>, p: nat, w: Vec, u: nat): int
    requires TermsBelow(v, p, |w|)
  {
    if v == [] then 0
    else
      var t := v[|v| - 1];
      RowSum(v[..|v| - 1], p, w, u) + if t.row == u then w[VarOf(t.index, p)] * t.coeff else 0
  }

  /** The coefficient of variable i in row u. */
  ghost function Coefficient(v: seq<Term>, p: nat, i: nat, u: nat): int {
    if v == [] then 0
    else
      var t := v[|v| - 1];
      Coefficient(v[..|v| - 1], p, i, u) + if VarOf(t.index, p) == i && t.row == u then t.coeff else 0
  }

  /** The group of variable i, in the order in which its terms were recorded. */
  ghost function Group(v: seq<Term>, p: nat, i: nat): seq<(int, nat)> {
    if v == [] then []
    else
      var t := v[|v| - 1];
      Group(v[..|v| - 1], p, i) + if VarOf(t.index, p) == i then [(t.coeff, t.row)] else []
  }

  ghost predicate Distinct<T>(s: seq<T>) {
    forall i, j :: 0 <= i < j < |s| ==> s[i] != s[j]
  }

  ghost predicate Below(ks: seq<nat>, n: nat) {
    forall k :: 0 <= k < |ks| ==> ks[k] < n
  }

  ghost function Keys(g: Groups): (r: seq<nat>)
    ensures |r| == |g| && forall k :: 0 <= k < |g| ==> r[k] == g[k].0
  {
    seq(|g|, k requires 0 <= k < |g| => g[k].0)
  }

  /** g holds each variable of v once, with exactly its terms. */
  ghost predicate IsGrouping(v: seq<Term>, p: nat, g: Groups) {
    && Distinct(Keys(g))
    && (forall k :: 0 <= k < |g| ==> g[k].1 == Group(v, p, g[k].0) != [])
    && (forall i: nat :: Group(v, p, i) != [] ==> i in Keys(g))
  }

  /** ks lists the variables of v in strictly increasing order. */
  ghost predicate IsKeyList(v: seq<Term>, p: nat, ks: seq<nat>) {
    && Increasing(ks)
    && (forall i: nat :: i in ks <==> Group(v, p, i) != [])
  }

  ghost predicate Increasing(s: seq<nat>) {
    forall i, j :: 0 <= i < j < |s| ==> s[i] < s[j]
  }

  /** All but the last of an increasing list are its members below the last. */
  lemma IncreasingFront(s: seq<nat>, front: seq<nat>, last: nat)
    requires Increasing(s) && s == front + [last]
    ensures Increasing(front) && last in s
    ensures forall x: nat :: x in front <==> x in s && x < last
    ensures forall x: nat :: x in s ==> x <= last
  {
    assert s[|front|] == last;
    assert forall i :: 0 <= i < |front| ==> front[i] == s[i];
  }

  /** Increasing lists of the same numbers are the same. */
  lemma {:induction false} IncreasingUnique(s: seq<nat>, t: seq<nat>)
    requires Increasing(s) && Increasing(t) && forall x: nat :: x in s <==> x in t
    ensures s == t
  {
    assert s == [] || s[0] in s;
    assert t == [] || t[0] in t;
    if s != [] && t != [] {
      hide Increasing;
      var a, x, b, y := s[..|s| - 1], s[|s| - 1], t[..|t| - 1], t[|t| - 1];
      IncreasingFront(s, a, x);
      IncreasingFront(t, b, y);
      assert x == y;
      forall z: nat ensures z in a <==> z in b {
        assert z in s <==> z in t;
      }
      IncreasingUnique(a, b);
    }
  }

  /** The terms determine the list of their variables, in whatever order the groups come out. */
  lemma KeyListUnique(v: seq<Term>, p: nat, ks: seq<nat>, other: seq<nat>)
    requires IsKeyList(v, p, ks) && IsKeyList(v, p, other)
    ensures ks == other
  {
    IncreasingUnique(ks, other);
  }

  // ------------------------------------------------------ transposition

  function InsertSorted(x: nat, s: seq<nat>): (r: seq<nat>)
    ensures forall y :: y in r <==> y == x || y in s
    ensures (forall i, j :: 0 <= i < j < |s| ==> s[i] < s[j]) && x !in s ==>
              forall i, j :: 0 <= i < j < |r| ==> r[i] < r[j]
  {
    if s == [] then [x]
    else if x <= s[0] then [x] + s
    else
      assert forall y :: y in s <==> y == s[0] || y in s[1..];
      var rest := InsertSorted(x, s[1..]);
      assert forall j :: 0 <= j < |rest| ==> rest[j] in rest;
      [s[0]] + rest
  }

  /** `sort` on a list without duplicates. */
  function Sort(s: seq<nat>): (r: seq<nat>)
    ensures forall y :: y in r <==> y in s
    ensures Distinct(s) ==> forall i, j :: 0 <= i < j < |r| ==> r[i] < r[j]
  {
    if s == [] then []
    else
      assert forall y :: y in s <==> y == s[0] || y in s[1..];
      InsertSorted(s[0], Sort(s[1..]))
  }

  /** The map holds exactly the nonempty groups of v, and the list exactly the keys. */
  ghost predicate Collected(v: seq<Term>, p: nat, groups: map<nat, seq<(int, nat)>>, constraints: seq<nat>) {
    && (forall i: nat :: i in groups <==> Group(v, p, i) != [])
    && (forall i: nat :: i in groups ==> groups[i] == Group(v, p, i))
    && (forall i: nat :: i in constraints <==> i in groups)
    && Distinct(constraints)
  }

  lemma CollectNew(v: seq<Term>, p: nat, groups: map<nat, seq<(int, nat)>>, constraints: seq<nat>, t: Term)
    requires Collected(v, p, groups, constraints) && VarOf(t.index, p) !in groups
    ensures var i := VarOf(t.index, p);
      Collected(v + [t], p, groups[i := [(t.coeff, t.row)]], constraints + [i])
  {
    assert (v + [t])[..|v|] == v;
  }

  lemma CollectMore(v: seq<Term>, p: nat, groups: map<nat, seq<(int, nat)>>, constraints: seq<nat>, t: Term)
    requires Collected(v, p, groups, constraints) && VarOf(t.index, p) in groups
    ensures var i := VarOf(t.index, p);
      Collected(v + [t], p, groups[i := groups[i] + [(t.coeff, t.row)]], constraints)
  {
    assert (v + [t])[..|v|] == v;
  }

  /** The first half of `collect`: a map from variable to group, and the variables met. */
  method GroupTerms(v: seq<Term>, p: nat) returns (groups: map<nat, seq<(int, nat)>>, constraints: seq<nat>)
    ensures Collected(v, p, groups, constraints)
  {
    constraints := [];
    groups := map[];
    assert Collected([], p, groups, constraints);
    hide Collected;
    for n := 0 to |v|
      invariant Collected(v[..n], p, groups, constraints)
    {
      assert v[..n + 1] == v[..n] + [v[n]];
      var t := v[n];
      var i := VarOf(t.index, p);
      if i in groups {
        CollectMore(v[..n], p, groups, constraints, t);
        groups := groups[i := groups[i] + [(t.coeff, t.row)]];
      } else {
        CollectNew(v[..n], p, groups, constraints, t);
        constraints := constraints + [i];
        groups := groups[i := [(t.coeff, t.row)]];
      }
    }
    assert v[..|v|] == v;
  }

  /** `map.into_iter().collect()`: the entries of the map in an arbitrary order. */
  method Entries(groups: map<nat, seq<(int, nat)>>) returns (g: Groups)
    ensures Distinct(Keys(g))
    ensures forall k :: 0 <= k < |g| ==> g[k].0 in groups && g[k].1 == groups[g[k].0]
    ensures forall i: nat :: i in groups ==> i in Keys(g)
  {
    g := [];
    var rest := groups;
    while rest.Keys != {}
      invariant Distinct(Keys(g))
      invariant forall i: nat :: i in rest ==> i !in Keys(g) && i in groups && rest[i] == groups[i]
      invariant forall k :: 0 <= k < |g| ==> g[k].0 in groups && g[k].1 == groups[g[k].0]
      invariant forall i: nat :: i in groups ==> i in rest || i in Keys(g)
      decreases |rest.Keys|
    {
      var i :| i in rest.Keys;
      assert Keys(g + [(i, rest[i])]) == Keys(g) + [i];
      g := g + [(i, rest[i])];
      assert (rest - {i}).Keys == rest.Keys - {i};
      rest := rest - {i};
    }
  }

  /** Groups the terms by variable; the groups come out in whatever order the map yields. */
  method Collect(v: seq<Term>, p: nat) returns (g: Groups, constraints: seq<nat>)
    ensures IsGrouping(v, p, g)
    ensures IsKeyList(v, p, constraints)
  {
    var groups;
    groups, constraints := GroupTerms(v, p);
    constraints := Sort(constraints);
    g := Entries(groups);
  }

  // --------------------------------------------- rows from the columns

  /** The sum over the variables ks of value times coefficient in row u. */
  ghost function KeySum(ks: seq<nat>, v: seq<Term>, p: nat, w: Vec, u: nat): int
    requires Below(ks, |w|)
  {
    if ks == [] then 0
    else
      var i := ks[|ks| - 1];
      KeySum(ks[..|ks| - 1], v, p, w, u) + w[i] * Coefficient(v, p, i, u)
  }

  lemma Distribute(x: int, c: int, d: int)
    ensures x * (c + d) == x * c + x * d && x * d == d * x
  {
  }

  /** One more term adds its value once, if its variable is listed. */
  lemma {:induction false} KeySumStep(ks: seq<nat>, v: seq<Term>, p: nat, w: Vec, u: nat)
    requires Below(ks, |w|) && Distinct(ks) && v != []
    ensures var t := v[|v| - 1]; var i := VarOf(t.index, p);
      KeySum(ks, v, p, w, u) == KeySum(ks, v[..|v| - 1], p, w, u) + if i in ks && t.row == u then w[i] * t.coeff else 0
  {
    if ks != [] {
      var k, rest := ks[|ks| - 1], ks[..|ks| - 1];
      var t := v[|v| - 1];
      assert ks == rest + [k];
      KeySumStep(rest, v, p, w, u);
      Distribute(w[k], Coefficient(v[..|v| - 1], p, k, u), t.coeff);
    }
  }

  /** Summing over any list of all the variables, each once, evaluates the row. */
  lemma {:induction false} KeySumIsRowSum(ks: seq<nat>, v: seq<Term>, p: nat, w: Vec, u: nat)
    requires Below(ks, |w|) && Distinct(ks) && TermsBelow(v, p, |w|)
    requires forall t :: t in v ==> VarOf(t.index, p) in ks
    ensures KeySum(ks, v, p, w, u) == RowSum(v, p, w, u)
  {
    if v == [] {
      NoTerms(ks, p, w, u);
    } else {
      KeySumStep(ks, v, p, w, u);
      KeySumIsRowSum(ks, v[..|v| - 1], p, w, u);
    }
  }

  lemma {:induction false} NoTerms(ks: seq<nat>, p: nat, w: Vec, u: nat)
    requires Below(ks, |w|)
    ensures KeySum(ks, [], p, w, u) == 0
  {
    if ks != [] { NoTerms(ks[..|ks| - 1], p, w, u); }
  }

  /** The part of a group that falls in row u, scaled by x. */
  ghost function EntrySum(es: seq<(int, nat)>, x: int, u: nat): int {
    if es == [] then 0
    else
      var e := es[|es| - 1];
      EntrySum(es[..|es| - 1], x, u) + if e.1 == u then e.0 * x else 0
  }

  lemma EntrySumSnoc(es: seq<(int, nat)>, c: int, row: nat, x: int, u: nat)
    ensures EntrySum(es + [(c, row)], x, u) == EntrySum(es, x, u) + if row == u then c * x else 0
  {
    assert (es + [(c, row)])[..|es|] == es;
  }

  lemma {:induction false} EntrySumOfGroup(v: seq<Term>, p: nat, i: nat, x: int, u: nat)
    ensures EntrySum(Group(v, p, i), x, u) == x * Coefficient(v, p, i, u)
  {
    if v == [] {
      assert EntrySum([], x, u) == 0 == x * 0;
    } else {
      hide EntrySum;
      var t, rest := v[|v| - 1], v[..|v| - 1];
      EntrySumOfGroup(rest, p, i, x, u);
      EntrySumSnoc(Group(rest, p, i), t.coeff, t.row, x, u);
      Distribute(x, Coefficient(rest, p, i, u), t.coeff);
      if VarOf(t.index, p) != i { assert Group(v, p, i) == Group(rest, p, i); }
    }
  }

  /** What the prover's `eval` adds to row u. */
  ghost function GroupsRow(g: Groups, w: Vec, u: nat): int
    requires forall k :: 0 <= k < |g| ==> g[k].0 < |w|
  {
    if g == [] then 0
    else
      var (i, es) := g[|g| - 1];
      GroupsRow(g[..|g| - 1], w, u) + EntrySum(es, w[i], u)
  }

  lemma {:induction false} GroupsRowIsKeySum(g: Groups, v: seq<Term>, p: nat, w: Vec, u: nat)
    requires forall k :: 0 <= k < |g| ==> g[k].0 < |w| && g[k].1 == Group(v, p, g[k].0)
    ensures GroupsRow(g, w, u) == KeySum(Keys(g), v, p, w, u)
  {
    if g != [] {
      var rest := g[..|g| - 1];
      assert Keys(g)[..|g| - 1] == Keys(rest);
      GroupsRowIsKeySum(rest, v, p, w, u);
      EntrySumOfGroup(v, p, g[|g| - 1].0, w[g[|g| - 1].0], u);
    }
  }

  /** A variable of v has a nonempty group, and the other way round. */
  lemma {:induction false} GroupOfTerm(v: seq<Term>, p: nat, i: nat)
    ensures Group(v, p, i) != [] <==> exists t :: t in v && VarOf(t.index, p) == i
  {
    if v != [] {
      var rest, t := v[..|v| - 1], v[|v| - 1];
      GroupOfTerm(rest, p, i);
      assert v == rest + [t];
    }
  }

  /**
   Transposition preserves meaning: in any order of the groups, the rows they
   add up to are the values of the recorded linear combinations.
   */
  lemma TranspositionPreservesRows(v: seq<Term>, p: nat, g: Groups, w: Vec, u: nat)
    requires IsGrouping(v, p, g) && TermsBelow(v, p, |w|)
    ensures forall k :: 0 <= k < |g| ==> g[k].0 < |w|
    ensures GroupsRow(g, w, u) == RowSum(v, p, w, u)
  {
    forall k | 0 <= k < |g| ensures g[k].0 < |w| { GroupOfTerm(v, p, g[k].0); }
    forall t | t in v ensures VarOf(t.index, p) in Keys(g) { GroupOfTerm(v, p, VarOf(t.index, p)); }
    GroupsRowIsKeySum(g, v, p, w, u);
    KeySumIsRowSum(Keys(g), v, p, w, u);
  }

  /** The key list covers the variables too, so it serves to sum over columns. */
  lemma KeyListCovers(v: seq<Term>, p: nat, ks: seq<nat>, n: nat)
    requires IsKeyList(v, p, ks) && TermsBelow(v, p, n)
    ensures Distinct(ks) && Below(ks, n)
    ensures forall t :: t in v ==> VarOf(t.index, p) in ks
  {
    forall k | 0 <= k < |ks| ensures ks[k] < n { GroupOfTerm(v, p, ks[k]); }
    forall t | t in v ensures VarOf(t.index, p) in ks { GroupOfTerm(v, p, VarOf(t.index, p)); }
  }
}
