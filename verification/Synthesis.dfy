/**
 Recording a circuit: the `AnalyzeCircuit` constraint system of
 crates/groth16/src/lib.rs and the two extractions built on it.

 A circuit is the list of calls its `synthesize` makes.
 */
module Synthesis {
  import opened Wrappers
  import opened Modular
  import opened Polynomials
  import opened Circuit

  datatype SynthesisError = AssignmentMissing

  /** A call made by a circuit; None is a witness closure that fails. */
  datatype Call =
    | Alloc(value: Option<int>)
    | AllocInput(value: Option<int>)
    | Enforce(constraint: Constraint)

  datatype Side = SideA | SideB | SideC

  function Part(c: Constraint, side: Side): LinearCombination {
    match side
    case SideA => c.a
    case SideB => c.b
    case SideC => c.c
  }

  // ------------------------------------------------------------ meaning

  /** The value of a linear combination under the assignment w. */
  ghost function LcValue(lc: LinearCombination, p: nat, w: Vec): int
    requires forall k :: 0 <= k < |lc| ==> VarOf(lc[k].0, p) < |w|
  {
    if lc == [] then 0
    else
      var (x, c) := lc[|lc| - 1];
      LcValue(lc[..|lc| - 1], p, w) + w[VarOf(x, p)] * c
  }

  /** Every variable was allocated: i inputs and n variables in all. */
  ghost predicate Known(lc: LinearCombination, p: nat, n: nat) {
    forall k :: 0 <= k < |lc| ==>
      (lc[k].0.Input? ==> lc[k].0.i < p) && VarOf(lc[k].0, p) < n
  }

  ghost predicate KnownConstraint(c: Constraint, p: nat, n: nat) {
    Known(c.a, p, n) && Known(c.b, p, n) && Known(c.c, p, n)
  }

  /** The constraint a * b = c holds in the field under w. */
  ghost predicate Holds(q: int, c: Constraint, p: nat, w: Vec)
    requires KnownConstraint(c, p, |w|)
  {
    Cong(q, LcValue(c.a, p, w) * LcValue(c.b, p, w), LcValue(c.c, p, w))
  }

  ghost function RowTerms(lc: LinearCombination, row: nat): (r: seq<Term>)
    ensures |r| == |lc|
  {
    seq(|lc|, k requires 0 <= k < |lc| => Term(lc[k].0, lc[k].1, row))
  }

  /** The terms recorded for one side of the constraints. */
  ghost function Terms(cs: seq<Constraint>, side: Side): seq<Term> {
    if cs == [] then []
    else Terms(cs[..|cs| - 1], side) + RowTerms(Part(cs[|cs| - 1], side), |cs| - 1)
  }

  lemma {:induction false} TermsKnown(cs: seq<Constraint>, side: Side, p: nat, n: nat)
    requires forall c :: c in cs ==> KnownConstraint(c, p, n)
    ensures forall t :: t in Terms(cs, side) ==> VarOf(t.index, p) < n && t.row < |cs|
  {
    if cs != [] {
      var c := cs[|cs| - 1];
      assert c in cs;
      TermsKnown(cs[..|cs| - 1], side, p, n);
    }
  }

  lemma {:induction false} RowSumAppend(v: seq<Term>, y: seq<Term>, p: nat, w: Vec, u: nat)
    requires TermsBelow(v + y, p, |w|)
    ensures TermsBelow(v, p, |w|) && TermsBelow(y, p, |w|)
    ensures RowSum(v + y, p, w, u) == RowSum(v, p, w, u) + RowSum(y, p, w, u)
  {
    assert forall t :: t in v || t in y ==> t in v + y;
    if y == [] {
      assert v + y == v;
    } else {
      assert (v + y)[..|v + y| - 1] == v + y[..|y| - 1];
      RowSumAppend(v, y[..|y| - 1], p, w, u);
    }
  }

  lemma {:induction false} RowOfTerms(lc: LinearCombination, row: nat, p: nat, w: Vec, u: nat)
    requires Known(lc, p, |w|)
    ensures TermsBelow(RowTerms(lc, row), p, |w|)
    ensures RowSum(RowTerms(lc, row), p, w, u) == if u == row then LcValue(lc, p, w) else 0
  {
    if lc != [] {
      var rest := lc[..|lc| - 1];
      RowOfTerms(rest, row, p, w, u);
      assert RowTerms(lc, row)[..|lc| - 1] == RowTerms(rest, row);
    }
  }

  /** Row u of the recorded terms is the value of constraint u; rows beyond the last are zero. */
  lemma {:induction false} RecordedRow(cs: seq<Constraint>, side: Side, p: nat, w: Vec, u: nat)
    requires forall c :: c in cs ==> KnownConstraint(c, p, |w|)
    ensures TermsBelow(Terms(cs, side), p, |w|)
    ensures u < |cs| ==>
      KnownConstraint(cs[u], p, |w|) && RowSum(Terms(cs, side), p, w, u) == LcValue(Part(cs[u], side), p, w)
    ensures u >= |cs| ==> RowSum(Terms(cs, side), p, w, u) == 0
  {
    TermsKnown(cs, side, p, |w|);
    if cs != [] {
      hide RowSum, LcValue, RowTerms;
      var rest, c := cs[..|cs| - 1], cs[|cs| - 1];
      assert c in cs && forall d :: d in rest ==> d in cs;
      RecordedRow(rest, side, p, w, u);
      RowSumAppend(Terms(rest, side), RowTerms(Part(c, side), |cs| - 1), p, w, u);
      RowOfTerms(Part(c, side), |cs| - 1, p, w, u);
    }
  }

  // ----------------------------------------------------- the recorder

  class AnalyzeCircuit {
    var inputAssignment: seq<int>
    var numInputs: nat
    var auxAssignment: seq<int>
    var numAux: nat
    var numConstraints: nat
    const extractAssignments: bool
    var at: seq<Term>
    var bt: seq<Term>
    var ct: seq<Term>
    ghost var constraints: seq<Constraint>

    ghost predicate Valid()
      reads this
    {
      && at == Terms(constraints, SideA) && bt == Terms(constraints, SideB) && ct == Terms(constraints, SideC)
      && numConstraints == |constraints|
      && (extractAssignments ==> |inputAssignment| == numInputs && |auxAssignment| == numAux)
      && (!extractAssignments ==> inputAssignment == [] && auxAssignment == [])
    }

    constructor (extract: bool)
      ensures Valid() && extractAssignments == extract
      ensures numInputs == numAux == 0 && inputAssignment == auxAssignment == [] && constraints == []
    {
      extractAssignments := extract;
      inputAssignment, numInputs, auxAssignment, numAux, numConstraints := [], 0, [], 0, 0;
      at, bt, ct, constraints := [], [], [], [];
    }

    method AllocAux(f: Option<int>) returns (r: Result<Index, SynthesisError>)
      requires Valid()
      modifies this`auxAssignment, this`numAux
      ensures Valid()
      ensures r.Err? <==> extractAssignments && f.None?
      ensures r.Err? ==> auxAssignment == old(auxAssignment) && numAux == old(numAux)
      ensures r.Ok? ==> r.value == Aux(old(numAux)) && numAux == old(numAux) + 1
      ensures r.Ok? && extractAssignments ==> auxAssignment == old(auxAssignment) + [f.value]
    {
      if extractAssignments {
        if f.None? { return Err(AssignmentMissing); }
        auxAssignment := auxAssignment + [f.value];
      }
      numAux := numAux + 1;
      r := Ok(Aux(numAux - 1));
    }

    method AllocInput(f: Option<int>) returns (r: Result<Index, SynthesisError>)
      requires Valid()
      modifies this`inputAssignment, this`numInputs
      ensures Valid()
      ensures r.Err? <==> extractAssignments && f.None?
      ensures r.Err? ==> inputAssignment == old(inputAssignment) && numInputs == old(numInputs)
      ensures r.Ok? ==> r.value == Input(old(numInputs)) && numInputs == old(numInputs) + 1
      ensures r.Ok? && extractAssignments ==> inputAssignment == old(inputAssignment) + [f.value]
    {
      if extractAssignments {
        if f.None? { return Err(AssignmentMissing); }
        inputAssignment := inputAssignment + [f.value];
      }
      numInputs := numInputs + 1;
      r := Ok(Input(numInputs - 1));
    }

    method Enforce(c: Constraint)
      requires Valid()
      modifies this`at, this`bt, this`ct, this`numConstraints, this`constraints
      ensures Valid() && constraints == old(constraints) + [c]
    {
      at := PushTerms(c.a, at, numConstraints);
      bt := PushTerms(c.b, bt, numConstraints);
      ct := PushTerms(c.c, ct, numConstraints);
      numConstraints := numConstraints + 1;
      constraints := constraints + [c];
      assert constraints[..|constraints| - 1] == old(constraints);
    }

    /** The nested `eval` of `enforce`. */
    static method PushTerms(lc: LinearCombination, output: seq<Term>, current: nat) returns (r: seq<Term>)
      ensures r == output + RowTerms(lc, current)
    {
      r := output;
      for k := 0 to |lc|
        invariant r == output + RowTerms(lc[..k], current)
      {
        assert RowTerms(lc[..k + 1], current) == RowTerms(lc[..k], current) + [Term(lc[k].0, lc[k].1, current)];
        r := r + [Term(lc[k].0, lc[k].1, current)];
      }
      assert lc[..|lc|] == lc;
    }

    /** The constraints grouped by variable. */
    method Qap() returns (q: QAP)
      requires Valid()
      ensures IsQap(q, constraints, numInputs)
    {
      var a, aConstraints := Collect(at, numInputs);
      var b, bConstraints := Collect(bt, numInputs);
      var c, _ := Collect(ct, numInputs);
      q := QAP(a, b, c, aConstraints, bConstraints);
    }
  }

  /** q transposes the constraints of a system with p inputs. */
  ghost predicate IsQap(q: QAP, cs: seq<Constraint>, p: nat) {
    && IsGrouping(Terms(cs, SideA), p, q.a) && IsKeyList(Terms(cs, SideA), p, q.aConstraints)
    && IsGrouping(Terms(cs, SideB), p, q.b) && IsKeyList(Terms(cs, SideB), p, q.bConstraints)
    && IsGrouping(Terms(cs, SideC), p, q.c)
  }

  // ----------------------------------------------------- the extractions

  /** The values given to the public inputs, the leading one included. */
  ghost function InputValues(calls: seq<Call>): (r: seq<int>)
    requires AllAssigned(calls)
    ensures |r| == CountInputs(calls)
  {
    if calls == [] then [1]
    else
      var c := calls[|calls| - 1];
      InputValues(calls[..|calls| - 1]) + if c.AllocInput? then [c.value.value] else []
  }

  ghost function AuxValues(calls: seq<Call>): seq<int>
    requires AllAssigned(calls)
  {
    if calls == [] then []
    else
      var c := calls[|calls| - 1];
      AuxValues(calls[..|calls| - 1]) + if c.Alloc? then [c.value.value] else []
  }

  ghost predicate AllAssigned(calls: seq<Call>) {
    forall k :: 0 <= k < |calls| ==> !calls[k].Enforce? ==> calls[k].value.Some?
  }

  ghost function CountInputs(calls: seq<Call>): nat {
    if calls == [] then 1
    else CountInputs(calls[..|calls| - 1]) + if calls[|calls| - 1].AllocInput? then 1 else 0
  }

  ghost function CircuitConstraints(calls: seq<Call>): seq<Constraint> {
    if calls == [] then []
    else
      var c := calls[|calls| - 1];
      CircuitConstraints(calls[..|calls| - 1]) + if c.Enforce? then [c.constraint] else []
  }

  /** The row x_i * 0 = 0 that both extractions add for input i. */
  function InputConstraint(i: nat): Constraint {
    Constraint([(Input(i), 1)], [], [])
  }

  ghost function SystemOf(calls: seq<Call>): seq<Constraint> {
    CircuitConstraints(calls) + seq(CountInputs(calls), i requires 0 <= i => InputConstraint(i))
  }

  method Perform(call: Call, cs: AnalyzeCircuit) returns (r: Result<(), SynthesisError>)
    requires cs.Valid()
    modifies cs
    ensures cs.Valid()
    ensures r.Err? <==> cs.extractAssignments && !call.Enforce? && call.value.None?
    ensures r.Ok? ==> cs.constraints == old(cs.constraints) + if call.Enforce? then [call.constraint] else []
    ensures r.Ok? ==> cs.numInputs == old(cs.numInputs) + if call.AllocInput? then 1 else 0
    ensures r.Ok? && cs.extractAssignments ==>
      && cs.inputAssignment == old(cs.inputAssignment) + (if call.AllocInput? then [call.value.value] else [])
      && cs.auxAssignment == old(cs.auxAssignment) + (if call.Alloc? then [call.value.value] else [])
  {
    match call {
      case Alloc(f) =>
        var x := cs.AllocAux(f);
        if x.Err? { return Err(x.error); }
      case AllocInput(f) =>
        var x := cs.AllocInput(f);
        if x.Err? { return Err(x.error); }
      case Enforce(c) =>
        cs.Enforce(c);
    }
    r := Ok(());
  }

  method Synthesize(calls: seq<Call>, cs: AnalyzeCircuit) returns (r: Result<(), SynthesisError>)
    requires cs.Valid() && cs.constraints == [] && cs.numInputs == 1
    requires cs.extractAssignments ==> cs.inputAssignment == [1] && cs.auxAssignment == []
    modifies cs
    ensures cs.Valid()
    ensures r.Ok? <==> !cs.extractAssignments || AllAssigned(calls)
    ensures r.Ok? ==> cs.constraints == CircuitConstraints(calls) && cs.numInputs == CountInputs(calls)
    ensures r.Ok? && cs.extractAssignments ==>
      cs.inputAssignment == InputValues(calls) && cs.auxAssignment == AuxValues(calls)
  {
    NothingRecorded(cs.extractAssignments);
    assert calls[..0] == [];
    for k := 0 to |calls|
      invariant cs.Valid()
      invariant Recording(calls[..k], cs.extractAssignments, cs.constraints, cs.numInputs, cs.inputAssignment,
                          cs.auxAssignment)
    {
      hide Recording, CircuitConstraints, CountInputs, InputValues, AuxValues;
      var before, n, inputs, aux := cs.constraints, cs.numInputs, cs.inputAssignment, cs.auxAssignment;
      var x := Perform(calls[k], cs);
      if x.Err? { return Err(x.error); }
      CallRecorded(calls, k, cs.extractAssignments, before, n, inputs, aux, cs.inputAssignment, cs.auxAssignment);
    }
    assert calls[..|calls|] == calls;
    r := Ok(());
  }

  /** What is recorded after the given calls of a circuit. */
  ghost predicate Recording(calls: seq<Call>, extract: bool, constraints: seq<Constraint>, numInputs: nat,
                            inputs: seq<int>, aux: seq<int>)
  {
    && constraints == CircuitConstraints(calls) && numInputs == CountInputs(calls)
    && (extract ==> AllAssigned(calls) && inputs == InputValues(calls) && aux == AuxValues(calls))
  }

  lemma NothingRecorded(extract: bool)
    ensures forall inputs, aux :: (extract ==> inputs == [1] && aux == []) ==>
      Recording([], extract, [], 1, inputs, aux)
  {
  }

  lemma CallRecorded(calls: seq<Call>, k: nat, extract: bool, constraints: seq<Constraint>, numInputs: nat,
                     inputs: seq<int>, aux: seq<int>, inputs': seq<int>, aux': seq<int>)
    requires k < |calls| && Recording(calls[..k], extract, constraints, numInputs, inputs, aux)
    requires extract && !calls[k].Enforce? ==> calls[k].value.Some?
    requires extract ==>
      && inputs' == inputs + (if calls[k].AllocInput? then [calls[k].value.value] else [])
      && aux' == aux + (if calls[k].Alloc? then [calls[k].value.value] else [])
    ensures var call := calls[k];
      Recording(calls[..k + 1], extract, constraints + (if call.Enforce? then [call.constraint] else []),
                numInputs + (if call.AllocInput? then 1 else 0), inputs', aux')
  {
    assert calls[..k + 1][..k] == calls[..k] && calls[..k + 1][k] == calls[k];
  }

  /** The constraint x_i * 0 = 0 for every public input. */
  method EnforceInputs(cs: AnalyzeCircuit)
    requires cs.Valid()
    modifies cs
    ensures cs.Valid() && cs.numInputs == old(cs.numInputs)
    ensures cs.constraints == old(cs.constraints) + seq(cs.numInputs, i requires 0 <= i => InputConstraint(i))
    ensures cs.inputAssignment == old(cs.inputAssignment) && cs.auxAssignment == old(cs.auxAssignment)
  {
    for i := 0 to cs.numInputs
      invariant cs.Valid() && cs.numInputs == old(cs.numInputs)
      invariant cs.constraints == old(cs.constraints) + seq(i, j requires 0 <= j => InputConstraint(j))
      invariant cs.inputAssignment == old(cs.inputAssignment) && cs.auxAssignment == old(cs.auxAssignment)
    {
      cs.Enforce(InputConstraint(i));
    }
  }

  /** The body shared by the two extractions. */
  method Record(calls: seq<Call>, extract: bool) returns (cs: AnalyzeCircuit, r: Result<(), SynthesisError>)
    ensures fresh(cs) && cs.Valid() && cs.extractAssignments == extract
    ensures r.Ok? <==> !extract || AllAssigned(calls)
    ensures r.Ok? ==> cs.constraints == SystemOf(calls) && cs.numInputs == CountInputs(calls)
    ensures r.Ok? && extract ==>
      cs.inputAssignment == InputValues(calls) && cs.auxAssignment == AuxValues(calls)
  {
    cs := new AnalyzeCircuit(extract);
    var one := cs.AllocInput(Some(1));
    r := Synthesize(calls, cs);
    if r.Ok? {
      EnforceInputs(cs);
    }
  }

  /** Constraint |CircuitConstraints| + i of the system is the row of input i. */
  lemma SystemRow(calls: seq<Call>, i: nat)
    requires i < CountInputs(calls)
    ensures |SystemOf(calls)| == |CircuitConstraints(calls)| + CountInputs(calls)
    ensures SystemOf(calls)[|CircuitConstraints(calls)| + i] == Constraint([(Input(i), 1)], [], [])
  {
  }

  /** Under every assignment, the row added for input i is the input on side A and zero on the others. */
  lemma InputRowIsInput(calls: seq<Call>, i: nat, w: Vec)
    requires i < CountInputs(calls) <= |w|
    requires forall c :: c in CircuitConstraints(calls) ==> KnownConstraint(c, CountInputs(calls), |w|)
    ensures var p, u := CountInputs(calls), |CircuitConstraints(calls)| + i;
      && (forall side: Side :: TermsBelow(Terms(SystemOf(calls), side), p, |w|))
      && RowSum(Terms(SystemOf(calls), SideA), p, w, u) == w[i]
      && RowSum(Terms(SystemOf(calls), SideB), p, w, u) == 0
      && RowSum(Terms(SystemOf(calls), SideC), p, w, u) == 0
  {
    hide RowSum, Terms, LcValue, KnownConstraint, SystemOf, InputConstraint, TermsBelow;
    var cs, p, u := SystemOf(calls), CountInputs(calls), |CircuitConstraints(calls)| + i;
    SystemKnown(calls, |w|);
    forall side: Side ensures TermsBelow(Terms(cs, side), p, |w|) {
      RecordedRow(cs, side, p, w, u);
    }
    SystemRow(calls, i);
    RecordedRow(cs, SideA, p, w, u);
    RecordedRow(cs, SideB, p, w, u);
    RecordedRow(cs, SideC, p, w, u);
    InputValue(i, p, w);
  }

  lemma SystemKnown(calls: seq<Call>, n: nat)
    requires CountInputs(calls) <= n
    requires forall c :: c in CircuitConstraints(calls) ==> KnownConstraint(c, CountInputs(calls), n)
    ensures |SystemOf(calls)| == |CircuitConstraints(calls)| + CountInputs(calls)
    ensures forall c :: c in SystemOf(calls) ==> KnownConstraint(c, CountInputs(calls), n)
  {
  }

  lemma InputValue(i: nat, p: nat, w: Vec)
    requires i < |w|
    ensures LcValue([(Input(i), 1)], p, w) == w[i] && LcValue([], p, w) == 0
  {
    assert [(Input(i), 1)][..0] == [];
  }

  lemma {:induction false} TermRecorded(cs: seq<Constraint>, side: Side, u: nat, k: nat)
    requires u < |cs| && k < |Part(cs[u], side)|
    ensures Term(Part(cs[u], side)[k].0, Part(cs[u], side)[k].1, u) in Terms(cs, side)
  {
    var n := |cs| - 1;
    if u < n {
      TermRecorded(cs[..n], side, u, k);
    } else {
      assert RowTerms(Part(cs[n], side), n)[k] == Term(Part(cs[u], side)[k].0, Part(cs[u], side)[k].1, u);
    }
  }

  lemma {:induction false} TermInGroup(v: seq<Term>, p: nat, t: Term)
    requires t in v
    ensures (t.coeff, t.row) in Group(v, p, VarOf(t.index, p))
  {
    var n := |v| - 1;
    if v[n] != t { TermInGroup(v[..n], p, t); }
  }

  /** Every public input, the leading one included, has coefficient 1 in a row of its own on side A. */
  ghost predicate InputsIncluded(q: QAP, own: nat, inputs: nat) {
    && (forall i :: 0 <= i < inputs ==> i in q.aConstraints)
    && (forall i :: 0 <= i < inputs ==> HasInputRow(q.a, own, i))
  }

  ghost predicate HasInputRow(g: Groups, own: nat, i: nat) {
    exists k :: 0 <= k < |g| && g[k].0 == i && (1, own + i) in g[k].1
  }

  lemma InputsInQap(calls: seq<Call>, q: QAP)
    requires IsQap(q, SystemOf(calls), CountInputs(calls))
    ensures InputsIncluded(q, |CircuitConstraints(calls)|, CountInputs(calls))
  {
    hide Group, Terms, SystemOf, CountInputs, CircuitConstraints;
    var cs, p, own := SystemOf(calls), CountInputs(calls), |CircuitConstraints(calls)|;
    forall i | 0 <= i < p
      ensures i in q.aConstraints && HasInputRow(q.a, own, i)
    {
      SystemRow(calls, i);
      TermRecorded(cs, SideA, own + i, 0);
      TermInGroup(Terms(cs, SideA), p, Term(Input(i), 1, own + i));
      var k :| 0 <= k < |q.a| && Keys(q.a)[k] == i;
      assert (1, own + i) in q.a[k].1;
    }
  }

  method ExtractAssignments(calls: seq<Call>) returns (r: Result<AnalyzeCircuit, SynthesisError>)
    ensures r.Ok? <==> AllAssigned(calls)
    ensures r.Ok? ==> fresh(r.value) && r.value.Valid() && r.value.constraints == SystemOf(calls)
    ensures r.Ok? ==> r.value.inputAssignment == InputValues(calls) && r.value.auxAssignment == AuxValues(calls)
  {
    var cs, s := Record(calls, true);
    if s.Err? { return Err(s.error); }
    r := Ok(cs);
  }

  method ExtractCircuit(calls: seq<Call>) returns (r: Result<QAP, SynthesisError>)
    ensures r.Ok? && IsQap(r.value, SystemOf(calls), CountInputs(calls))
    ensures InputsIncluded(r.value, |CircuitConstraints(calls)|, CountInputs(calls))
  {
    var cs, s := Record(calls, false);
    assert s.Ok?;  // without extraction no witness closure is called
    var q := cs.Qap();
    InputsInQap(calls, q);
    r := Ok(q);
  }

  lemma {:induction false} FirstInput(calls: seq<Call>)
    requires AllAssigned(calls)
    ensures |InputValues(calls)| > 0 && InputValues(calls)[0] == 1
  {
    if calls != [] { FirstInput(calls[..|calls| - 1]); }
  }

  /** The rows added for the inputs hold under every assignment. */
  lemma InputConstraintHolds(q: int, i: nat, p: nat, w: Vec)
    requires i < p <= |w|
    ensures KnownConstraint(InputConstraint(i), p, |w|) && Holds(q, InputConstraint(i), p, w)
  {
    var c := InputConstraint(i);
    assert LcValue(c.b, p, w) == 0 == LcValue(c.c, p, w);
    CongRefl(q, 0);
  }

  /** Every constraint of a list is about known variables and holds. */
  ghost predicate AllHold(cs: seq<Constraint>, q: int, p: nat, w: Vec) {
    forall c :: c in cs ==> KnownConstraint(c, p, |w|) && Holds(q, c, p, w)
  }

  /** The recorded system holds exactly when the circuit's own constraints do. */
  lemma SystemHoldsIff(calls: seq<Call>, q: int, w: Vec)
    requires CountInputs(calls) <= |w|
    ensures AllHold(SystemOf(calls), q, CountInputs(calls), w) <==>
      AllHold(CircuitConstraints(calls), q, CountInputs(calls), w)
  {
    var p := CountInputs(calls);
    var own, rows := CircuitConstraints(calls), seq(p, i requires 0 <= i => InputConstraint(i));
    forall c | c in rows ensures KnownConstraint(c, p, |w|) && Holds(q, c, p, w) {
      var i :| 0 <= i < p && c == rows[i];
      InputConstraintHolds(q, i, p, w);
    }
    assert forall c :: c in own + rows <==> c in own || c in rows;
  }
}
