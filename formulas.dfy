/** The Boolean formulas over equality variables the encoder builds, their value under
    an assignment, and the log of constraints it hands to the solver. */
module Formulas {
  import opened Wrappers
  import opened Types
  import opened Equalities

  /** `Conjunction` of no formula is true, `Disjunction` of none is false. */
  datatype Formula =
    | Var(e: Equality)
    | Const(value: bool)
    | Conj(parts: seq<Formula>)
    | Disj(parts: seq<Formula>)

  /** A truth value for every equality variable. */
  type Assignment = Equality -> bool

  function Eval(f: Formula, asg: Assignment): bool
  {
    match f
    case Var(e) => asg(e)
    case Const(b) => b
    case Conj(ps) => forall i | 0 <= i < |ps| :: Eval(ps[i], asg)
    case Disj(ps) => exists i | 0 <= i < |ps| :: Eval(ps[i], asg)
  }

  /** Every variable of the formula pairs two types of `ts`. */
  ghost predicate AllVarsIn(f: Formula, ts: set<Type>)
  {
    match f
    case Var(e) => e.left in ts && e.right in ts
    case Const(_) => true
    case Conj(ps) => forall i | 0 <= i < |ps| :: AllVarsIn(ps[i], ts)
    case Disj(ps) => forall i | 0 <= i < |ps| :: AllVarsIn(ps[i], ts)
  }

  lemma {:induction false} AllVarsInMonotone(f: Formula, ts: set<Type>, us: set<Type>)
    requires AllVarsIn(f, ts) && ts <= us
    ensures AllVarsIn(f, us)
  {
    match f
    case Var(_) =>
    case Const(_) =>
    case Conj(ps) =>
      forall i | 0 <= i < |ps| ensures AllVarsIn(ps[i], us) {
        AllVarsInMonotone(ps[i], ts, us);
      }
    case Disj(ps) =>
      forall i | 0 <= i < |ps| ensures AllVarsIn(ps[i], us) {
        AllVarsInMonotone(ps[i], ts, us);
      }
  }

  /** The types that the variables of a formula pair. */
  ghost function Sides(f: Formula): set<Type>
  {
    match f
    case Var(e) => {e.left, e.right}
    case Const(_) => {}
    case Conj(ps) => set i, t | 0 <= i < |ps| && t in Sides(ps[i]) :: t
    case Disj(ps) => set i, t | 0 <= i < |ps| && t in Sides(ps[i]) :: t
  }

  /** The sides of a list of formulas depend on its elements only. */
  lemma SidesElems(ps: seq<Formula>, qs: seq<Formula>)
    requires forall f :: f in ps <==> f in qs
    ensures Sides(Conj(ps)) == Sides(Conj(qs))
  {
    forall t | t in Sides(Conj(ps)) ensures t in Sides(Conj(qs)) {
      var i :| 0 <= i < |ps| && t in Sides(ps[i]);
      assert ps[i] in qs;
      var j :| 0 <= j < |qs| && qs[j] == ps[i];
    }
    forall t | t in Sides(Conj(qs)) ensures t in Sides(Conj(ps)) {
      var j :| 0 <= j < |qs| && t in Sides(qs[j]);
      assert qs[j] in ps;
      var i :| 0 <= i < |ps| && ps[i] == qs[j];
    }
  }

  lemma SidesConcat(ps: seq<Formula>, qs: seq<Formula>)
    ensures Sides(Conj(ps + qs)) == Sides(Conj(ps)) + Sides(Conj(qs))
  {
    var all := ps + qs;
    forall t | t in Sides(Conj(all)) ensures t in Sides(Conj(ps)) + Sides(Conj(qs)) {
      var i :| 0 <= i < |all| && t in Sides(all[i]);
      if i >= |ps| {
        assert all[i] == qs[i - |ps|];
      }
    }
    forall t | t in Sides(Conj(ps)) + Sides(Conj(qs)) ensures t in Sides(Conj(all)) {
      if t in Sides(Conj(ps)) {
        var i :| 0 <= i < |ps| && t in Sides(ps[i]);
        assert all[i] == ps[i];
      } else {
        var j :| 0 <= j < |qs| && t in Sides(qs[j]);
        assert all[|ps| + j] == qs[j];
      }
    }
  }

  /** A conjunction or disjunction with one more part pairs the types of that part too. */
  lemma SidesSnoc(ps: seq<Formula>, f: Formula)
    ensures Sides(Conj(ps + [f])) == Sides(Conj(ps)) + Sides(f)
  {
    SidesConcat(ps, [f]);
    assert Sides(Conj([f])) == Sides(f) by {
      assert [f][0] == f;
    }
  }

  /** The known types grow by the sides of each part added to a list of formulas. */
  lemma SidesGrow(start: set<Type>, before: set<Type>, after: set<Type>, ps: seq<Formula>, f: Formula)
    requires before == start + Sides(Conj(ps)) && after == before + Sides(f)
    ensures after == start + Sides(Conj(ps + [f]))
  {
    SidesSnoc(ps, f);
  }

  /** A disjunction pairs the same types as the conjunction of its parts. */
  lemma SidesDisj(ps: seq<Formula>)
    ensures Sides(Disj(ps)) == Sides(Conj(ps))
  {
  }

  /** Formulas appended the way a set is updated pair the types of both lists. */
  lemma SidesUpdate(start: set<Type>, before: set<Type>, after: set<Type>, conj: seq<Formula>, fs: seq<Formula>, r: seq<Formula>)
    requires before == start + Sides(Conj(conj)) && after == before + Sides(Conj(fs))
    requires forall f :: f in r <==> f in conj || f in fs
    ensures after == start + Sides(Conj(r))
  {
    SidesElems(r, conj + fs);
    SidesConcat(conj, fs);
  }

  /** A two-part conjunction holds exactly when both parts do. */
  lemma ConjOfTwo(f: Formula, g: Formula)
    ensures forall asg: Assignment :: Eval(Conj([f, g]), asg) == (Eval(f, asg) && Eval(g, asg))
  {
    forall asg: Assignment ensures Eval(Conj([f, g]), asg) == (Eval(f, asg) && Eval(g, asg)) {
      assert [f, g][0] == f && [f, g][1] == g;
    }
  }

  /** A log of one record is satisfied exactly when that record holds. */
  lemma SatisfiesOne(c: Constraint)
    ensures forall asg: Assignment :: Satisfies([c], asg) == Holds(c, asg)
  {
    forall asg: Assignment ensures Satisfies([c], asg) == Holds(c, asg) {
      assert [c][0] == c;
    }
  }

  lemma SatisfiesTwo(c: Constraint, d: Constraint)
    ensures forall asg: Assignment :: Satisfies([c, d], asg) == (Holds(c, asg) && Holds(d, asg))
  {
    forall asg: Assignment ensures Satisfies([c, d], asg) == (Holds(c, asg) && Holds(d, asg)) {
      assert [c, d][0] == c && [c, d][1] == d;
    }
  }

  /** A conjunction with a constant-false part is false under every assignment. */
  lemma ConjWithFalse(ps: seq<Formula>, asg: Assignment)
    requires Const(false) in ps
    ensures !Eval(Conj(ps), asg)
  {
    var i :| 0 <= i < |ps| && ps[i] == Const(false);
    assert !Eval(ps[i], asg);
  }

  /** The records of the solver's problem, in the order they are registered. */
  datatype Constraint =
    | Hint(v: Equality, preferred: bool)                              // soft preference
    | Equals(v: Equality, f: Formula)                                 // v <==> f
    | Implies(ante: Formula, cons: Formula)                           // ante ==> cons
    | BetweenNM(vs: seq<Equality>, min: nat, max: Option<nat>, tag: Type) // min <= #true <= max

  /** The types that the variables of a record pair; the tag of a cardinality
      record is not a variable. */
  ghost function ConstraintSides(c: Constraint): set<Type>
  {
    match c
    case Hint(v, _) => {v.left, v.right}
    case Equals(v, f) => {v.left, v.right} + Sides(f)
    case Implies(a, b) => Sides(a) + Sides(b)
    case BetweenNM(vs, _, _, _) => (set i | 0 <= i < |vs| :: vs[i].left) + (set i | 0 <= i < |vs| :: vs[i].right)
  }

  /** The types that the variables of a log pair. */
  ghost function LogSides(log: seq<Constraint>): set<Type>
    decreases |log|
  {
    if log == [] then {} else LogSides(log[..|log| - 1]) + ConstraintSides(log[|log| - 1])
  }

  lemma {:induction false} LogSidesConcat(a: seq<Constraint>, b: seq<Constraint>)
    ensures LogSides(a + b) == LogSides(a) + LogSides(b)
    decreases |b|
  {
    if b == [] {
      assert a + b == a;
    } else {
      var front := b[..|b| - 1];
      LogSidesConcat(a, front);
      assert (a + b)[..|a + b| - 1] == a + front;
      assert (a + b)[|a + b| - 1] == b[|b| - 1];
    }
  }

  function CountTrue(vs: seq<Equality>, asg: Assignment): nat
  {
    if |vs| == 0 then 0
    else CountTrue(vs[..|vs| - 1], asg) + (if asg(vs[|vs| - 1]) then 1 else 0)
  }

  /** The meaning of one record; a hint does not constrain. */
  predicate Holds(c: Constraint, asg: Assignment)
  {
    match c
    case Hint(_, _) => true
    case Equals(v, f) => asg(v) == Eval(f, asg)
    case Implies(a, b) => Eval(a, asg) ==> Eval(b, asg)
    case BetweenNM(vs, lo, hi, _) =>
      lo <= CountTrue(vs, asg) && (hi.Some? ==> CountTrue(vs, asg) <= hi.value)
  }

  predicate Satisfies(log: seq<Constraint>, asg: Assignment)
  {
    forall i | 0 <= i < |log| :: Holds(log[i], asg)
  }

  /** A count of at least one has a true variable to show for it. */
  lemma {:induction false} SomeTrue(vs: seq<Equality>, asg: Assignment)
    requires CountTrue(vs, asg) >= 1
    ensures exists i | 0 <= i < |vs| :: asg(vs[i])
  {
    var last := |vs| - 1;
    if !asg(vs[last]) {
      SomeTrue(vs[..last], asg);
      var i :| 0 <= i < last && asg(vs[..last][i]);
      assert vs[i] == vs[..last][i];
    }
  }
}
