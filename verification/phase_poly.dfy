/**
 * Phase-polynomial extraction (`Phase_Polynomial` in src/pp/pp.cpp): walk a
 * topologically ordered gate list, keep the linear function carried by each
 * wire as a row over GF(2), and collect one coefficient per distinct wire
 * row on which a Z rotation acts.
 */
module PhasePoly {
  import opened Wrappers
  import opened BooleanMatrix

  /**
   * `dvlab::Phase` is not part of this model. A phase is kept as a whole
   * number of 1/PhaseDenominator turns, reduced modulo one full turn.
   */
  const PhaseDenominator: nat := 2520

  type Phase = p: nat | p < PhaseDenominator

  function AddPhase(a: Phase, b: Phase): Phase {
    (a + b) % PhaseDenominator
  }

  /** Rotation axes the extractor distinguishes; every other category is `OtherRotation`. */
  datatype RotationCategory = Pz | Rz | OtherRotation

  /**
   * A gate as the extractor sees it: whether it is a CX, its qubits (control
   * first, then target), its rotation category and its phase.
   */
  datatype Gate = Gate(isCx: bool, qubits: seq<nat>, category: RotationCategory, phase: Phase)

  /** A circuit: its qubit count and its gates in topological order. */
  datatype Circuit = Circuit(numQubits: nat, gates: seq<Gate>)

  /** What a circuit guarantees about each gate it hands out. */
  predicate WellFormedGate(n: nat, g: Gate) {
    && |g.qubits| >= 1
    && (g.isCx ==> |g.qubits| == 2)
    && forall i :: 0 <= i < |g.qubits| ==> g.qubits[i] < n
  }

  predicate WellFormedGates(n: nat, gates: seq<Gate>) {
    forall i :: 0 <= i < |gates| ==> WellFormedGate(n, gates[i])
  }

  function CxGate(c: nat, t: nat): Gate {
    Gate(true, [c, t], OtherRotation, 0)
  }

  function RzGate(q: nat, p: Phase): Gate {
    Gate(false, [q], Rz, p)
  }

  /** A one-qubit Z rotation: the only phase gate the extractor accepts. */
  predicate IsZRotation(g: Gate) {
    !g.isCx && |g.qubits| == 1 && (g.category == Pz || g.category == Rz)
  }

  predicate Supported(g: Gate) {
    g.isCx || IsZRotation(g)
  }

  /** Extractor state: qubit count, wires matrix, term catalogue and its coefficients. */
  datatype PhasePolynomial = PhasePolynomial(qubitNumber: nat, wires: Matrix, terms: Matrix, coeffs: seq<Phase>)

  /** The state invariant: square wires, one coefficient per term, no repeated term. */
  predicate Valid(pp: PhasePolynomial) {
    && |pp.wires| == pp.qubitNumber
    && (forall i :: 0 <= i < |pp.wires| ==> |pp.wires[i]| == pp.qubitNumber)
    && |pp.terms| == |pp.coeffs|
    && NoDuplicateRows(pp.terms)
  }

  /** `intial_wire(n)`: wire `i` carries qubit `i`. */
  function InitialWire(n: nat): (w: Matrix)
    ensures IsIdentity(w, n)
  {
    IdentityIsIdentity(n);
    Identity(n)
  }

  /** `reset`: empty catalogue and identity wires for the current qubit count. */
  function Reset(pp: PhasePolynomial): (r: PhasePolynomial)
    ensures r.qubitNumber == pp.qubitNumber
    ensures IsIdentity(r.wires, pp.qubitNumber)
    ensures r.terms == [] && r.coeffs == []
    ensures Valid(r)
  {
    PhasePolynomial(pp.qubitNumber, InitialWire(pp.qubitNumber), [], [])
  }

  /** `insert_phase` returns the new state together with its (always true) status. */
  datatype Insertion = Insertion(state: PhasePolynomial, ok: bool)

  /**
   * `insert_phase(q, phase)`: merge `phase` into the coefficient of the term
   * equal to wire `q`, or append that wire row as a new term.
   */
  function InsertPhase(pp: PhasePolynomial, q: nat, phase: Phase): (r: Insertion)
    requires q < |pp.wires| && |pp.terms| == |pp.coeffs|
    ensures r.ok
    ensures r.state.wires == pp.wires && r.state.qubitNumber == pp.qubitNumber
    ensures pp.wires[q] in pp.terms ==>
      var k := FindRow(pp.terms, pp.wires[q]).value;
      && r.state.terms == pp.terms
      && |r.state.coeffs| == |pp.coeffs|
      && r.state.coeffs[k] == AddPhase(pp.coeffs[k], phase)
      && forall j :: 0 <= j < |pp.coeffs| && j != k ==> r.state.coeffs[j] == pp.coeffs[j]
    ensures pp.wires[q] !in pp.terms ==>
      && r.state.terms == pp.terms + [pp.wires[q]]
      && r.state.coeffs == pp.coeffs + [phase]
  {
    var term := GetRow(pp.wires, q);
    match FindRow(pp.terms, term)
    case Some(k) =>
      Insertion(pp.(coeffs := pp.coeffs[k := AddPhase(pp.coeffs[k], phase)]), true)
    case None =>
      Insertion(pp.(terms := PushRow(pp.terms, term), coeffs := pp.coeffs + [phase]), true)
  }

  lemma InsertPhasePreservesValid(pp: PhasePolynomial, q: nat, phase: Phase)
    requires Valid(pp) && q < |pp.wires|
    ensures Valid(InsertPhase(pp, q, phase).state)
  {
  }

  /** A CX gate: row XOR on the wires, catalogue untouched. */
  function ApplyCx(pp: PhasePolynomial, c: nat, t: nat): (r: PhasePolynomial)
    requires c < |pp.wires| && t < |pp.wires|
    ensures r.terms == pp.terms && r.coeffs == pp.coeffs && r.qubitNumber == pp.qubitNumber
    ensures |r.wires| == |pp.wires|
    ensures forall i :: 0 <= i < |pp.wires| && i != t ==> r.wires[i] == pp.wires[i]
    ensures r.wires[t] == Xor(pp.wires[t], pp.wires[c])
  {
    pp.(wires := RowOperation(pp.wires, c, t))
  }

  /** One gate of the loop body of `calculate_pp`; None for an unsupported gate. */
  function Step(pp: PhasePolynomial, g: Gate): (r: Option<PhasePolynomial>)
    requires Valid(pp) && WellFormedGate(pp.qubitNumber, g)
    ensures r.Some? <==> Supported(g)
    ensures r.Some? ==> Valid(r.value) && r.value.qubitNumber == pp.qubitNumber
  {
    if g.isCx then Some(ApplyCx(pp, g.qubits[0], g.qubits[1]))
    else if IsZRotation(g) then
      InsertPhasePreservesValid(pp, g.qubits[0], g.phase);
      Some(InsertPhase(pp, g.qubits[0], g.phase).state)
    else None
  }

  /** Outcome of extraction: the returned flag and the state left behind. */
  datatype Extraction = Extraction(ok: bool, state: PhasePolynomial)

  /** The gate loop of `calculate_pp`: stops with `false` at the first unsupported gate, keeping the state so far. */
  function Run(pp: PhasePolynomial, gates: seq<Gate>): (r: Extraction)
    requires Valid(pp) && WellFormedGates(pp.qubitNumber, gates)
    ensures Valid(r.state) && r.state.qubitNumber == pp.qubitNumber
    ensures r.ok <==> forall i :: 0 <= i < |gates| ==> Supported(gates[i])
    decreases |gates|
  {
    if |gates| == 0 then Extraction(true, pp)
    else match Step(pp, gates[0])
      case None => Extraction(false, pp)
      case Some(pp') =>
        var r := Run(pp', gates[1..]);
        assert forall i :: 1 <= i < |gates| ==> gates[i] == gates[1..][i - 1];
        r
  }

  /**
   * `calculate_pp(qc)`: set the qubit count, reset, then run the gates.
   * The state left behind depends only on the circuit.
   */
  function CalculatePP(qc: Circuit): (r: Extraction)
    requires WellFormedGates(qc.numQubits, qc.gates)
    ensures Valid(r.state) && r.state.qubitNumber == qc.numQubits
    ensures r.ok <==> forall i :: 0 <= i < |qc.gates| ==> Supported(qc.gates[i])
  {
    Run(Reset(PhasePolynomial(qc.numQubits, [], [], [])), qc.gates)
  }

  /** Running a concatenation runs the first part, then (if it succeeded) the second from where it stopped. */
  lemma {:induction false} RunAppend(pp: PhasePolynomial, pre: seq<Gate>, post: seq<Gate>)
    requires Valid(pp) && WellFormedGates(pp.qubitNumber, pre) && WellFormedGates(pp.qubitNumber, post)
    ensures WellFormedGates(pp.qubitNumber, pre + post)
    ensures var a := Run(pp, pre);
      Run(pp, pre + post) == if a.ok then Run(a.state, post) else a
    decreases |pre|
  {
    var all := pre + post;
    assert WellFormedGates(pp.qubitNumber, all) by {
      forall i | 0 <= i < |all| ensures WellFormedGate(pp.qubitNumber, all[i]) {
        if i < |pre| { assert all[i] == pre[i]; } else { assert all[i] == post[i - |pre|]; }
      }
    }
    if |pre| > 0 {
      assert all[0] == pre[0];
      assert all[1..] == pre[1..] + post;
      match Step(pp, pre[0])
      case None =>
      case Some(pp') =>
        assert WellFormedGates(pp.qubitNumber, pre[1..]) by {
          forall i | 0 <= i < |pre[1..]| ensures WellFormedGate(pp.qubitNumber, pre[1..][i]) {
            assert pre[1..][i] == pre[i + 1];
          }
        }
        RunAppend(pp', pre[1..], post);
    } else {
      assert all == post;
    }
  }

  /**
   * `calculate_pp` returns false at the first unsupported gate and keeps the
   * state built by the gates before it; nothing is rolled back.
   */
  lemma StopsAtFirstUnsupported(pp: PhasePolynomial, pre: seq<Gate>, g: Gate, post: seq<Gate>)
    requires Valid(pp) && WellFormedGates(pp.qubitNumber, pre)
    requires WellFormedGate(pp.qubitNumber, g) && WellFormedGates(pp.qubitNumber, post)
    requires forall i :: 0 <= i < |pre| ==> Supported(pre[i])
    requires !Supported(g)
    ensures WellFormedGates(pp.qubitNumber, pre + [g] + post)
    ensures var r := Run(pp, pre + [g] + post);
      !r.ok && r.state == Run(pp, pre).state
  {
    var rest := [g] + post;
    assert WellFormedGates(pp.qubitNumber, [g]);
    RunAppend(pp, [g], post);
    assert pre + [g] + post == pre + rest;
    RunAppend(pp, pre, rest);
    assert rest[0] == g;
  }

  predicate CxNotTargeting(g: Gate, q: nat) {
    g.isCx && |g.qubits| == 2 && g.qubits[1] != q
  }

  /** CX gates that do not target `q` leave wire `q` and the whole catalogue as they were. */
  lemma {:induction false} CxRunKeepsWire(pp: PhasePolynomial, mid: seq<Gate>, q: nat)
    requires Valid(pp) && WellFormedGates(pp.qubitNumber, mid) && q < pp.qubitNumber
    requires forall i :: 0 <= i < |mid| ==> CxNotTargeting(mid[i], q)
    ensures var r := Run(pp, mid);
      && r.ok && r.state.wires[q] == pp.wires[q]
      && r.state.terms == pp.terms && r.state.coeffs == pp.coeffs
    decreases |mid|
  {
    if |mid| > 0 {
      var pp' := Step(pp, mid[0]).value;
      assert WellFormedGates(pp.qubitNumber, mid[1..]) by {
        forall i | 0 <= i < |mid[1..]| ensures WellFormedGate(pp.qubitNumber, mid[1..][i]) { assert mid[1..][i] == mid[i + 1]; }
      }
      CxRunKeepsWire(pp', mid[1..], q);
    }
  }

  /**
   * Two Z rotations on qubit `q` separated only by CX gates that do not
   * target `q` land on one catalogue term, whose coefficient gains both phases.
   */
  lemma TwoRotationsMerge(pp: PhasePolynomial, q: nat, p1: Phase, mid: seq<Gate>, p2: Phase)
    requires Valid(pp) && q < pp.qubitNumber
    requires WellFormedGates(pp.qubitNumber, mid)
    requires forall i :: 0 <= i < |mid| ==> CxNotTargeting(mid[i], q)
    ensures WellFormedGates(pp.qubitNumber, [RzGate(q, p1)] + mid + [RzGate(q, p2)])
    ensures var r := Run(pp, [RzGate(q, p1)] + mid + [RzGate(q, p2)]);
      var row := pp.wires[q];
      && r.ok
      && (row in pp.terms ==>
            var k := FindRow(pp.terms, row).value;
            r.state.terms == pp.terms && r.state.coeffs[k] == AddPhase(AddPhase(pp.coeffs[k], p1), p2))
      && (row !in pp.terms ==>
            r.state.terms == pp.terms + [row] && r.state.coeffs[|pp.terms|] == AddPhase(p1, p2))
  {
    var n := pp.qubitNumber;
    var g1, g2 := RzGate(q, p1), RzGate(q, p2);
    assert WellFormedGates(n, [g1]) && WellFormedGates(n, [g2]);
    var s1 := InsertPhase(pp, q, p1).state;
    assert Run(pp, [g1]).state == s1 by {
      assert [g1][1..] == [];
    }
    RunAppend(pp, [g1], mid);
    CxRunKeepsWire(s1, mid, q);
    var s2 := Run(s1, mid).state;
    RunAppend(pp, [g1] + mid, [g2]);
    assert Run(s2, [g2]).state == InsertPhase(s2, q, p2).state by {
      assert [g2][1..] == [];
    }
  }

  /** A single Rz(1/4 turn) on qubit 0 of a 2-qubit circuit yields the one term "10". */
  lemma SingleRotationExample()
    ensures WellFormedGates(2, [RzGate(0, 630)])
    ensures var r := CalculatePP(Circuit(2, [RzGate(0, 630)]));
      r.ok && r.state.terms == [[true, false]] && r.state.coeffs == [630]
  {
    var pp := Reset(PhasePolynomial(2, [], [], []));
    assert pp.wires[0] == [true, false];
    assert [RzGate(0, 630)][1..] == [];
  }

  /** CX(0, 1) then a Z rotation on qubit 1 gives the term "11". */
  lemma CxThenRotationExample()
    ensures WellFormedGates(2, [CxGate(0, 1), RzGate(1, 630)])
    ensures var r := CalculatePP(Circuit(2, [CxGate(0, 1), RzGate(1, 630)]));
      r.ok && r.state.terms == [[true, true]]
  {
    var gates := [CxGate(0, 1), RzGate(1, 630)];
    var pp := Reset(PhasePolynomial(2, [], [], []));
    assert pp.wires[0] == [true, false] && pp.wires[1] == [false, true];
    var pp1 := ApplyCx(pp, 0, 1);
    assert pp1.wires[1] == [true, true];
    assert gates[1..] == [RzGate(1, 630)];
    assert gates[1..][1..] == [];
  }
}
