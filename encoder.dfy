/** The encoder: a session object that accumulates the known types and the records
    of the satisfiability problem, generates them from two lists of classes by a
    fixpoint, and reads the matches back from a solution. */
module Encoder {
  import opened Wrappers
  import opened Sorting
  import Strings
  import PyTD
  import opened Structures
  import opened Types
  import opened Equalities
  import opened Formulas
  import opened Shapes

  lemma StringOrder(names: set<string>)
    ensures StrictTotalOn(names, Strings.Less)
  {
    forall x | x in names ensures !Strings.Less(x, x) {
      Strings.LessIrreflexive(x);
    }
    forall x, y, z | x in names && y in names && z in names && Strings.Less(x, y) && Strings.Less(y, z)
      ensures Strings.Less(x, z)
    {
      Strings.LessTransitive(x, y, z);
    }
    forall x, y | x in names && y in names && x != y ensures Strings.Less(x, y) || Strings.Less(y, x) {
      Strings.LessConnected(x, y);
    }
  }

  /** The class types the session starts from. */
  function InitialTypes(complete: seq<PyTD.Class>, incomplete: seq<PyTD.Class>): set<Type>
  {
    (set c | c in complete :: ClassT(ClassType(c, true)))
    + (set c | c in incomplete :: ClassT(ClassType(c, false)))
  }

  /** The errors generation can end with: conversion, resolution and key clashes.
      Reading a union's class only happens in `Solve`. */
  predicate GenerationError(e: Error)
  {
    !e.NoClassAttribute?
  }

  /** One pair handed to `_GenerateConstraints`: the pair, the known types before and
      after its records were generated, and those records. */
  datatype Step = Step(v: Equality, lo: set<Type>, hi: set<Type>, recs: seq<Constraint>)

  /** The pairs of the steps, in order. */
  function VarsOf(steps: seq<Step>): seq<Equality>
  {
    seq(|steps|, i requires 0 <= i < |steps| => steps[i].v)
  }

  lemma VarsOfConcat(a: seq<Step>, b: seq<Step>)
    ensures VarsOf(a + b) == VarsOf(a) + VarsOf(b)
  {
    assert forall i | 0 <= i < |a + b| :: VarsOf(a + b)[i] == (VarsOf(a) + VarsOf(b))[i];
  }

  /** The records of the steps, one step after the other. */
  function RecordsOf(steps: seq<Step>): seq<Constraint>
    decreases |steps|
  {
    if steps == [] then [] else RecordsOf(steps[..|steps| - 1]) + steps[|steps| - 1].recs
  }

  lemma RecordsOfAppend(steps: seq<Step>, s: Step)
    ensures RecordsOf(steps + [s]) == RecordsOf(steps) + s.recs
  {
    assert (steps + [s])[..|steps|] == steps;
  }

  /** Each step's records are those its pair gets while the known types stay between
      `lo` and `hi`. */
  ghost predicate Generated(steps: seq<Step>, lo: set<Type>, hi: set<Type>)
  {
    forall i | 0 <= i < |steps| ::
      && lo <= steps[i].lo <= steps[i].hi <= hi
      && PairConstrained(steps[i].lo, steps[i].hi, steps[i].v, steps[i].recs)
  }

  lemma GeneratedWiden(steps: seq<Step>, lo: set<Type>, hi: set<Type>, lo': set<Type>, hi': set<Type>)
    requires Generated(steps, lo, hi) && lo' <= lo && hi <= hi'
    ensures Generated(steps, lo', hi')
  {
  }

  lemma GeneratedConcat(a: seq<Step>, b: seq<Step>, lo: set<Type>, hi: set<Type>)
    requires Generated(a, lo, hi) && Generated(b, lo, hi)
    ensures Generated(a + b, lo, hi)
  {
    forall i | 0 <= i < |a + b|
      ensures lo <= (a + b)[i].lo <= (a + b)[i].hi <= hi
      ensures PairConstrained((a + b)[i].lo, (a + b)[i].hi, (a + b)[i].v, (a + b)[i].recs)
    {
      if i >= |a| {
        assert (a + b)[i] == b[i - |a|];
      }
    }
  }

  /** One more step, generated between the types known at its start and its end. */
  lemma GeneratedSnoc(made: seq<Step>, lo: set<Type>, mid: set<Type>, hi: set<Type>, s: Step)
    requires Generated(made, lo, mid) && lo <= mid && s.lo == mid && mid <= hi && s.hi == hi
    requires PairConstrained(s.lo, s.hi, s.v, s.recs)
    ensures Generated(made + [s], lo, hi)
  {
    forall k | 0 <= k < |made + [s]|
      ensures lo <= (made + [s])[k].lo <= (made + [s])[k].hi <= hi
      ensures PairConstrained((made + [s])[k].lo, (made + [s])[k].hi, (made + [s])[k].v, (made + [s])[k].recs)
    {
      if k < |made| {
        assert (made + [s])[k] == made[k];
      } else {
        assert (made + [s])[k] == s;
      }
    }
  }

  lemma VarsOfSnoc(made: seq<Step>, s: Step, order: seq<Equality>, i: nat)
    requires i < |order| && VarsOf(made) == order[..i] && s.v == order[i]
    ensures VarsOf(made + [s]) == order[..i + 1]
  {
    VarsOfConcat(made, [s]);
    assert order[..i + 1] == order[..i] + [s.v];
  }

  lemma {:induction false} RecordsOfConcat(a: seq<Step>, b: seq<Step>)
    ensures RecordsOf(a + b) == RecordsOf(a) + RecordsOf(b)
    decreases |b|
  {
    if b != [] {
      var front := b[..|b| - 1];
      RecordsOfConcat(a, front);
      assert (a + b)[..|a + b| - 1] == a + front && (a + b)[|a + b| - 1] == b[|b| - 1];
      SeqAssoc(RecordsOf(a), RecordsOf(front), b[|b| - 1].recs);
    } else {
      assert a + b == a;
    }
  }

  /** A generated step's pair is defined in any log holding the records of the steps. */
  lemma StepDefines(steps: seq<Step>, lo: set<Type>, hi: set<Type>, log: seq<Constraint>, k: nat)
    requires Generated(steps, lo, hi) && k < |steps|
    requires forall c | c in RecordsOf(steps) :: c in log
    ensures DefinedIn(log, steps[k].v)
  {
    var s := steps[k];
    PairConstrainedDefines([], s.lo, s.hi, s.v, s.recs);
    assert [] + s.recs == s.recs;
    DefinedInMeans(s.recs, s.v);
    var j :| 0 <= j < |s.recs| && Defines(s.recs[j], s.v);
    RecordsOfHas(steps, k);
    assert s.recs[j] in log;
    var m :| 0 <= m < |log| && log[m] == s.recs[j];
    DefinedInMeans(log, s.v);
  }

  /** The pairs of the steps just made are defined in the log they extend. */
  lemma MadeDefines(pre: seq<Step>, made: seq<Step>, order: seq<Equality>, lo: set<Type>, hi: set<Type>, log: seq<Constraint>)
    requires log == RecordsOf(pre + made) && Generated(made, lo, hi) && VarsOf(made) == order
    ensures forall v | v in order :: DefinedIn(log, v)
  {
    RecordsOfConcat(pre, made);
    forall v | v in order ensures DefinedIn(log, v) {
      var k :| 0 <= k < |order| && order[k] == v;
      assert VarsOf(made)[k] == made[k].v;
      forall c | c in RecordsOf(made) ensures c in log {
        var m :| 0 <= m < |RecordsOf(made)| && RecordsOf(made)[m] == c;
        assert log[|RecordsOf(pre)| + m] == c;
      }
      StepDefines(made, lo, hi, log, k);
    }
  }

  /** A satisfying assignment that equates a generated pair meets that pair's
      requirement, read against the types known when it was generated. */
  lemma GeneratedPairSound(steps: seq<Step>, lo: set<Type>, hi: set<Type>, log: seq<Constraint>, i: nat, asg: Assignment)
    requires Generated(steps, lo, hi) && i < |steps| && RecordsOf(steps) <= log
    requires Satisfies(log, asg) && asg(steps[i].v)
    ensures NominallyCompatible(steps[i].v.left, steps[i].v.right)
    ensures exists names: seq<string>, parts: seq<Formula> ::
      && Elems(names) == StructureOf(steps[i].v.left).Keys + StructureOf(steps[i].v.right).Keys
      && Requirement(steps[i].lo, steps[i].hi, ViewOf(steps[i].v.left, steps[i].v.right), names, parts)
      && Eval(Conj(parts), asg)
  {
    RecordsOfHas(steps, i);
    forall c | c in steps[i].recs ensures c in log {
      assert c in RecordsOf(steps);
      var k :| 0 <= k < |RecordsOf(steps)| && RecordsOf(steps)[k] == c;
      assert log[k] == c;
    }
    ConstrainedPairSound(log, steps[i].lo, steps[i].hi, steps[i].v, steps[i].recs, asg);
  }

  /** Each step's records are among the records of all steps. */
  lemma {:induction false} RecordsOfHas(steps: seq<Step>, i: nat)
    requires i < |steps|
    ensures forall c | c in steps[i].recs :: c in RecordsOf(steps)
    decreases |steps|
  {
    var front := steps[..|steps| - 1];
    if i < |steps| - 1 {
      RecordsOfHas(front, i);
      assert front[i] == steps[i];
    }
  }

  /** The side of a pair that is matched: the left one unless it is complete. */
  function Incomp(v: Equality): (r: Type)
    ensures r == v.left || r == v.right
    ensures Complete(r) ==> Complete(v.left) && Complete(v.right)
    ensures !Complete(v.left) || !Complete(v.right) ==> !Complete(r)
  {
    if !Complete(v.left) then v.left else v.right
  }

  /** A pair the solution equates and whose other side is complete: `Solve` records it. */
  predicate Recorded(solution: map<Equality, Option<bool>>, v: Equality)
  {
    v in solution && solution[v] == Some(true) && Complete(Other(v, Incomp(v)))
  }

  /** `v` is recorded, and its incomplete side is a class named `c`. */
  predicate RecordedFor(solution: map<Equality, Option<bool>>, v: Equality, c: PyTD.Class)
  {
    Recorded(solution, v) && Incomp(v).ClassT? && Incomp(v).ct.cls == c
  }

  /** No pair recorded for the same class comes after `v` in the sorted order: its
      match is the one `Solve` keeps. */
  ghost predicate LastRecorded(solution: map<Equality, Option<bool>>, v: Equality)
    requires Incomp(v).ClassT?
  {
    forall w | RecordedFor(solution, w, Incomp(v).ct.cls) :: w == v || EqLess(w, v)
  }

  /** The results of `Solve` after the first `i` pairs of `order`: each class
      recorded so far is mapped to the match of the last pair recorded for it,
      `from` giving that pair's position. */
  ghost predicate SolvedUpTo(solution: map<Equality, Option<bool>>, order: seq<Equality>, i: nat,
                             results: map<PyTD.Class, PyTD.TypeRef>, from: map<PyTD.Class, nat>)
  {
    && i <= |order| && results.Keys == from.Keys
    && (forall k | 0 <= k < i && Recorded(solution, order[k]) && Incomp(order[k]).ClassT? ::
          Incomp(order[k]).ct.cls in results)
    && (forall c | c in results ::
          && from[c] < i && order[from[c]] in solution
          && RecordedFor(solution, order[from[c]], c)
          && results[c] == ToPyTD(Other(order[from[c]], Incomp(order[from[c]])))
          && forall k | from[c] < k < i && order[k] in solution :: !RecordedFor(solution, order[k], c))
  }

  /** Reading a pair that is not recorded for a class changes nothing. */
  lemma SolveSkip(solution: map<Equality, Option<bool>>, order: seq<Equality>, i: nat,
                  results: map<PyTD.Class, PyTD.TypeRef>, from: map<PyTD.Class, nat>)
    requires i < |order| && SolvedUpTo(solution, order, i, results, from)
    requires !(Recorded(solution, order[i]) && Incomp(order[i]).ClassT?)
    ensures SolvedUpTo(solution, order, i + 1, results, from)
  {
  }

  /** Reading a pair recorded for a class makes it that class's match. */
  lemma SolveRecord(solution: map<Equality, Option<bool>>, order: seq<Equality>, i: nat,
                    results: map<PyTD.Class, PyTD.TypeRef>, from: map<PyTD.Class, nat>)
    requires i < |order| && SolvedUpTo(solution, order, i, results, from)
    requires Recorded(solution, order[i]) && Incomp(order[i]).ClassT?
    ensures var v := order[i]; var c := Incomp(v).ct.cls;
      SolvedUpTo(solution, order, i + 1, results[c := ToPyTD(Other(v, Incomp(v)))], from[c := i])
  {
  }

  /** None of the first `n` pairs of `order` is recorded with a union as its
      incomplete side. */
  ghost predicate NoUnionUpTo(solution: map<Equality, Option<bool>>, order: seq<Equality>, n: nat)
    requires n <= |order|
    decreases n
  {
    n == 0 || (NoUnionUpTo(solution, order, n - 1)
      && !(Recorded(solution, order[n - 1]) && Incomp(order[n - 1]).UnionT?))
  }

  lemma {:induction false} NoUnionAt(solution: map<Equality, Option<bool>>, order: seq<Equality>, n: nat, k: nat)
    requires k < n <= |order| && NoUnionUpTo(solution, order, n)
    ensures !(Recorded(solution, order[k]) && Incomp(order[k]).UnionT?)
    decreases n
  {
    if k < n - 1 {
      NoUnionAt(solution, order, n - 1, k);
    }
  }

  /** The loop of `Solve` over the pairs in sorted order: a recorded pair maps its
      incomplete side's class to the other side, overriding an earlier match, and
      stops with an error when that side is a union. */
  method ReadMatches(solution: map<Equality, Option<bool>>, order: seq<Equality>)
    returns (r: Result<map<PyTD.Class, PyTD.TypeRef>, Error>, ghost from: map<PyTD.Class, nat>)
    requires Elems(order) == solution.Keys
    ensures r.Err? ==> r.error == NoClassAttribute
    ensures r.Err? ==> exists k | 0 <= k < |order| :: Recorded(solution, order[k]) && Incomp(order[k]).UnionT?
    ensures r.Ok? ==> NoUnionUpTo(solution, order, |order|)
    ensures r.Ok? ==> SolvedUpTo(solution, order, |order|, r.value, from)
  {
    var results := map[];
    from := map[];
    for i := 0 to |order|
      invariant NoUnionUpTo(solution, order, i)
      invariant SolvedUpTo(solution, order, i, results, from)
    {
      var v := order[i];
      assert v in Elems(order);
      if solution[v] == Some(true) && Complete(Other(v, Incomp(v))) {
        var incomp := Incomp(v);
        if incomp.UnionT? {
          return Err(NoClassAttribute), from;
        }
        SolveRecord(solution, order, i, results, from);
        results := results[incomp.ct.cls := ToPyTD(Other(v, incomp))];
        from := from[incomp.ct.cls := i];
      } else {
        SolveSkip(solution, order, i, results, from);
      }
    }
    r := Ok(results);
  }

  /** With every pair read, the positions turn into the statement of `Solve`. */
  lemma SolvedAll(solution: map<Equality, Option<bool>>, order: seq<Equality>,
                  results: map<PyTD.Class, PyTD.TypeRef>, from: map<PyTD.Class, nat>)
    requires Sorted(order, EqLess) && Elems(order) == solution.Keys
    requires SolvedUpTo(solution, order, |order|, results, from)
    ensures forall c :: c in results <==> exists v :: RecordedFor(solution, v, c)
    ensures forall c | c in results :: exists v ::
      RecordedFor(solution, v, c) && LastRecorded(solution, v) && results[c] == ToPyTD(Other(v, Incomp(v)))
  {
    forall c | exists v :: RecordedFor(solution, v, c) ensures c in results {
      var v :| RecordedFor(solution, v, c);
      assert v in Elems(order);
      var k :| 0 <= k < |order| && order[k] == v;
    }
    forall c | c in results ensures exists v ::
      RecordedFor(solution, v, c) && LastRecorded(solution, v) && results[c] == ToPyTD(Other(v, Incomp(v)))
    {
      var v := order[from[c]];
      forall w | RecordedFor(solution, w, c) ensures w == v || EqLess(w, v) {
        assert w in Elems(order);
        var k :| 0 <= k < |order| && order[k] == w;
      }
      assert LastRecorded(solution, v);
    }
  }

  ghost predicate Disjoint(bs: seq<set<Equality>>)
  {
    forall i, j | 0 <= i < j < |bs| :: bs[i] !! bs[j]
  }

  /** All the pairs handed over in batches. */
  ghost function Flatten(bs: seq<set<Equality>>): set<Equality>
    decreases |bs|
  {
    if bs == [] then {} else Flatten(bs[..|bs| - 1]) + bs[|bs| - 1]
  }

  lemma {:induction false} FlattenHolds(bs: seq<set<Equality>>, i: nat)
    requires i < |bs|
    ensures bs[i] <= Flatten(bs)
    decreases |bs|
  {
    if i < |bs| - 1 {
      FlattenHolds(bs[..|bs| - 1], i);
    }
  }

  /** Each pair is handed over exactly once: the processed list repeats nothing,
      the batches are disjoint, and both cover `vs`. */
  ghost predicate EachPairOnce(processed: seq<Equality>, batches: seq<set<Equality>>, vs: set<Equality>)
  {
    Distinct(processed) && Elems(processed) == vs && Disjoint(batches) && Flatten(batches) == vs
  }

  /** A new batch, disjoint from what was processed, keeps every pair handed over
      once. */
  lemma BatchStep(processed: seq<Equality>, batches: seq<set<Equality>>, order: seq<Equality>, vs: set<Equality>)
    requires EachPairOnce(processed, batches, vs)
    requires Distinct(order) && Elems(order) !! vs
    ensures EachPairOnce(processed + order, batches + [Elems(order)], vs + Elems(order))
  {
    DistinctAppend(processed, order);
    var grown := batches + [Elems(order)];
    assert grown[..|batches|] == batches;
    forall i, j | 0 <= i < j < |grown| ensures grown[i] !! grown[j] {
      if j == |batches| {
        FlattenHolds(batches, i);
      }
    }
  }

  lemma {:induction false} SubsetSize<T>(a: set<T>, b: set<T>)
    requires a <= b
    ensures |a| <= |b|
    decreases |a|
  {
    if a != {} {
      var x :| x in a;
      SubsetSize(a - {x}, b - {x});
    }
  }

  /** Growing a finite set inside a bound leaves less room in the bound. */
  lemma RoomShrinks(u: set<Type>, small: set<Type>, large: set<Type>)
    requires small < large <= u
    ensures |u - large| < |u - small|
  {
    assert large - small != {};
    var t :| t in large - small;
    assert u - large <= (u - small) - {t};
    SubsetSize(u - large, (u - small) - {t});
  }

  /** `sorted` over pairs of types with distinct keys. */
  method SortPairs(vs: set<Equality>, ghost ts: set<Type>) returns (r: seq<Equality>)
    requires KeysInjective(ts) && SidesIn(vs, ts)
    ensures Sorted(r, EqLess) && Distinct(r) && Elems(r) == vs
  {
    EqLessStrictTotal(vs, ts);
    r := SortBy(vs, EqLess);
    SortedDistinct(r, EqLess);
  }

  /** `sorted` over types with distinct keys. */
  method SortTypes(ts: set<Type>) returns (r: seq<Type>)
    requires KeysInjective(ts)
    ensures Sorted(r, TypeLess) && Elems(r) == ts
  {
    TypeLessStrictTotal(ts);
    r := SortBy(ts, TypeLess);
  }

  /** The measure of the worklist loop: the room left in the bound, plus one while
      pairs are waiting. */
  function Room(u: set<Type>, ts: set<Type>, added: set<Equality>): nat
  {
    |u - ts| + (if added == {} then 0 else 1)
  }

  /** A round either meets new types or adds no pair: the measure goes down. */
  lemma RoundShrinks(u: set<Type>, before: set<Type>, after: set<Type>, waiting: set<Equality>, added: set<Equality>)
    requires before <= after <= u && waiting != {}
    requires after == before ==> added == {}
    ensures Room(u, after, added) < Room(u, before, waiting)
  {
    if after != before {
      RoomShrinks(u, before, after);
    }
  }

  /** The transitivity record for `a`, `b`, `c` is due only for three different types. */
  ghost predicate HasTrans(log: seq<Constraint>, a: Type, b: Type, c: Type)
  {
    a == b || b == c || a == c || TransIn(log, a, b, c)
  }

  lemma TransGrows(log: seq<Constraint>, longer: seq<Constraint>, a: Type, b: Type, c: Type)
    requires HasTrans(log, a, b, c) && log <= longer
    ensures HasTrans(longer, a, b, c)
  {
    if TransIn(log, a, b, c) {
      TransInGrows(log, longer, a, b, c);
    }
  }

  /** Every three different known types with an incomplete middle one have their
      transitivity record. */
  ghost predicate TransitivityRecorded(log: seq<Constraint>, ts: set<Type>)
  {
    forall a, b, c | a in ts && b in ts && c in ts && !Complete(b) :: HasTrans(log, a, b, c)
  }

  lemma {:induction false} TransLastsHas(a: Type, b: Type, lasts: seq<Type>, k: nat)
    requires k < |lasts| && a != lasts[k] && b != lasts[k]
    ensures TransRecord(a, b, lasts[k]) in TransLasts(a, b, lasts)
    decreases |lasts|
  {
    if k < |lasts| - 1 {
      var front := lasts[..|lasts| - 1];
      TransLastsHas(a, b, front, k);
    }
  }

  lemma {:induction false} TransMiddlesHas(a: Type, middles: seq<Type>, lasts: seq<Type>, j: nat, k: nat)
    requires j < |middles| && k < |lasts| && a != middles[j] && a != lasts[k] && middles[j] != lasts[k]
    ensures TransRecord(a, middles[j], lasts[k]) in TransMiddles(a, middles, lasts)
    decreases |middles|
  {
    if j < |middles| - 1 {
      var front := middles[..|middles| - 1];
      TransMiddlesHas(a, front, lasts, j, k);
    } else {
      TransLastsHas(a, middles[j], lasts, k);
    }
  }

  /** Every three different listed types have their record among all of them. */
  lemma {:induction false} TransAllHas(firsts: seq<Type>, middles: seq<Type>, lasts: seq<Type>, i: nat, j: nat, k: nat)
    requires i < |firsts| && j < |middles| && k < |lasts|
    requires firsts[i] != middles[j] && firsts[i] != lasts[k] && middles[j] != lasts[k]
    ensures TransRecord(firsts[i], middles[j], lasts[k]) in TransAll(firsts, middles, lasts)
    decreases |firsts|
  {
    if i < |firsts| - 1 {
      var front := firsts[..|firsts| - 1];
      TransAllHas(front, middles, lasts, i, j, k);
    } else {
      TransMiddlesHas(firsts[i], middles, lasts, j, k);
    }
  }

  /** The records of the three loops cover every three known types. */
  lemma TransitivityListed(log: seq<Constraint>, ts: set<Type>, sortedTypes: seq<Type>, sortedIncomplete: seq<Type>)
    requires Elems(sortedTypes) == ts && Elems(sortedIncomplete) == set t | t in ts && !Complete(t)
    requires forall rec | rec in TransAll(sortedTypes, sortedIncomplete, sortedTypes) :: rec in log
    ensures TransitivityRecorded(log, ts)
  {
    forall a, b, c | a in ts && b in ts && c in ts && !Complete(b)
      ensures HasTrans(log, a, b, c)
    {
      if a != b && b != c && a != c {
        var i :| 0 <= i < |sortedTypes| && sortedTypes[i] == a;
        var k :| 0 <= k < |sortedTypes| && sortedTypes[k] == c;
        assert b in Elems(sortedIncomplete);
        var j :| 0 <= j < |sortedIncomplete| && sortedIncomplete[j] == b;
        TransAllHas(sortedTypes, sortedIncomplete, sortedTypes, i, j, k);
        TransInMeans(log, a, b, c);
      }
    }
  }

  lemma TransitivityRecordedGrows(log: seq<Constraint>, longer: seq<Constraint>, ts: set<Type>)
    requires TransitivityRecorded(log, ts) && log <= longer
    ensures TransitivityRecorded(longer, ts)
  {
    forall a, b, c | a in ts && b in ts && c in ts && !Complete(b) ensures HasTrans(longer, a, b, c) {
      TransGrows(log, longer, a, b, c);
    }
  }

  /** In every assignment that satisfies the records, matching is transitive through
      an incomplete middle type among the known ones. */
  lemma RecordedTransitivityHolds(log: seq<Constraint>, ts: set<Type>, a: Type, b: Type, c: Type, asg: Assignment)
    requires TransitivityRecorded(log, ts) && Satisfies(log, asg)
    requires a in ts && b in ts && c in ts && !Complete(b)
    requires a != b && b != c && a != c
    requires asg(MakeEquality(a, b)) && asg(MakeEquality(b, c))
    ensures asg(MakeEquality(a, c))
  {
    assert HasTrans(log, a, b, c);
    TransInMeans(log, a, b, c);
    TransitivityGuarantee(log, a, b, c, asg);
  }

  /** Every incomplete class has its cardinality record over its candidates. */
  ghost predicate CardinalityRecorded(log: seq<Constraint>, ts: set<Type>)
  {
    forall ty | ty in ts && ty.ClassT? && !ty.ct.complete :: CardinalityFor(log, ty, Candidates(Pairs(ts), ty))
  }

  /** The transitivity records for `a` and an incomplete `b` against the listed
      last types, in order: none where `c` is `a` or `b`. */
  function TransLasts(a: Type, b: Type, lasts: seq<Type>): seq<Constraint>
    decreases |lasts|
  {
    if lasts == [] then []
    else
      var c := lasts[|lasts| - 1];
      TransLasts(a, b, lasts[..|lasts| - 1]) + (if a == c || b == c then [] else [TransRecord(a, b, c)])
  }

  /** The transitivity records for `a` against the listed incomplete middle types,
      in order, skipping `a` itself. */
  function TransMiddles(a: Type, middles: seq<Type>, lasts: seq<Type>): seq<Constraint>
    decreases |middles|
  {
    if middles == [] then []
    else
      var b := middles[|middles| - 1];
      TransMiddles(a, middles[..|middles| - 1], lasts) + (if a == b then [] else TransLasts(a, b, lasts))
  }

  /** All transitivity records, in the order of the three nested loops. */
  function TransAll(firsts: seq<Type>, middles: seq<Type>, lasts: seq<Type>): seq<Constraint>
    decreases |firsts|
  {
    if firsts == [] then []
    else TransAll(firsts[..|firsts| - 1], middles, lasts) + TransMiddles(firsts[|firsts| - 1], middles, lasts)
  }

  /** One turn of the innermost loop extends the log by the records of one more
      last type. */
  lemma TransLastsStep(log: seq<Constraint>, pre: seq<Constraint>, a: Type, b: Type, lasts: seq<Type>, z: nat)
    requires z < |lasts| && log == pre + TransLasts(a, b, lasts[..z])
    ensures (if a != lasts[z] && b != lasts[z] then log + [TransRecord(a, b, lasts[z])] else log)
      == pre + TransLasts(a, b, lasts[..z + 1])
  {
    var upto := lasts[..z + 1];
    assert upto[..|upto| - 1] == lasts[..z] && upto[|upto| - 1] == lasts[z];
    var extra := if a == lasts[z] || b == lasts[z] then [] else [TransRecord(a, b, lasts[z])];
    assert TransLasts(a, b, upto) == TransLasts(a, b, lasts[..z]) + extra;
    SeqAssoc(pre, TransLasts(a, b, lasts[..z]), extra);
    if a == lasts[z] || b == lasts[z] {
      assert extra == [];
    }
  }

  lemma TransMiddlesStep(log: seq<Constraint>, pre: seq<Constraint>, a: Type, middles: seq<Type>, lasts: seq<Type>, y: nat)
    requires y < |middles| && log == pre + TransMiddles(a, middles[..y], lasts)
    ensures (if a != middles[y] then log + TransLasts(a, middles[y], lasts) else log)
      == pre + TransMiddles(a, middles[..y + 1], lasts)
  {
    var upto := middles[..y + 1];
    assert upto[..|upto| - 1] == middles[..y] && upto[|upto| - 1] == middles[y];
    var extra := if a == middles[y] then [] else TransLasts(a, middles[y], lasts);
    assert TransMiddles(a, upto, lasts) == TransMiddles(a, middles[..y], lasts) + extra;
    SeqAssoc(pre, TransMiddles(a, middles[..y], lasts), extra);
    if a == middles[y] {
      assert extra == [];
    }
  }

  lemma TransAllStep(log: seq<Constraint>, pre: seq<Constraint>, firsts: seq<Type>, middles: seq<Type>, lasts: seq<Type>, x: nat)
    requires x < |firsts| && log == pre + TransAll(firsts[..x], middles, lasts)
    ensures log + TransMiddles(firsts[x], middles, lasts) == pre + TransAll(firsts[..x + 1], middles, lasts)
  {
    var upto := firsts[..x + 1];
    assert upto[..|upto| - 1] == firsts[..x] && upto[|upto| - 1] == firsts[x];
    var extra := TransMiddles(firsts[x], middles, lasts);
    assert TransAll(upto, middles, lasts) == TransAll(firsts[..x], middles, lasts) + extra;
    SeqAssoc(pre, TransAll(firsts[..x], middles, lasts), extra);
  }

  lemma SeqAssoc<T>(a: seq<T>, b: seq<T>, c: seq<T>)
    ensures (a + b) + c == a + (b + c)
  {
  }

  /** `rec` is the transitivity record of three different listed types. */
  ghost predicate TransOf(rec: Constraint, firsts: seq<Type>, middles: seq<Type>, lasts: seq<Type>)
  {
    exists a, b, c | a in firsts && b in middles && c in lasts && a != b && a != c && b != c ::
      rec == TransRecord(a, b, c)
  }

  lemma {:induction false} TransLastsOnly(a: Type, b: Type, firsts: seq<Type>, middles: seq<Type>, lasts: seq<Type>)
    requires a in firsts && b in middles && a != b
    ensures forall rec | rec in TransLasts(a, b, lasts) :: TransOf(rec, firsts, middles, lasts)
    decreases |lasts|
  {
    if lasts != [] {
      var front := lasts[..|lasts| - 1];
      var c := lasts[|lasts| - 1];
      TransLastsOnly(a, b, firsts, middles, front);
      forall rec | rec in TransLasts(a, b, lasts) ensures TransOf(rec, firsts, middles, lasts) {
        if rec in TransLasts(a, b, front) {
          assert TransOf(rec, firsts, middles, front);
          var a', b', c' :| a' in firsts && b' in middles && c' in front && a' != b' && a' != c' && b' != c'
                           && rec == TransRecord(a', b', c');
          assert c' in lasts;
        } else {
          assert rec == TransRecord(a, b, c);
        }
      }
    }
  }

  lemma {:induction false} TransMiddlesOnly(a: Type, firsts: seq<Type>, middles: seq<Type>, upto: seq<Type>, lasts: seq<Type>)
    requires a in firsts && Elems(upto) <= Elems(middles)
    ensures forall rec | rec in TransMiddles(a, upto, lasts) :: TransOf(rec, firsts, middles, lasts)
    decreases |upto|
  {
    if upto != [] {
      var front := upto[..|upto| - 1];
      var b := upto[|upto| - 1];
      TransMiddlesOnly(a, firsts, middles, front, lasts);
      assert b in Elems(upto);
      if a != b {
        TransLastsOnly(a, b, firsts, middles, lasts);
      }
    }
  }

  /** Nothing but transitivity records of three different listed types, with an
      incomplete middle one when the middles are the incomplete types, is recorded. */
  lemma {:induction false} TransAllOnly(firsts: seq<Type>, upto: seq<Type>, middles: seq<Type>, lasts: seq<Type>)
    requires Elems(upto) <= Elems(firsts)
    ensures forall rec | rec in TransAll(upto, middles, lasts) :: TransOf(rec, firsts, middles, lasts)
    decreases |upto|
  {
    if upto != [] {
      var front := upto[..|upto| - 1];
      var a := upto[|upto| - 1];
      TransAllOnly(firsts, front, middles, lasts);
      assert a in Elems(upto);
      TransMiddlesOnly(a, firsts, middles, middles, lasts);
    }
  }

  /** `recs` are the cardinality records of the listed types, in order: one for
      each incomplete class, over its candidates among `vs`. */
  ghost predicate CardinalityList(recs: seq<Constraint>, tys: seq<Type>, vs: set<Equality>)
    decreases |tys|
  {
    if tys == [] then recs == []
    else
      var ty := tys[|tys| - 1];
      if ty.ClassT? && !ty.ct.complete then
        && recs != []
        && IsCardinality(recs[|recs| - 1], ty, Candidates(vs, ty))
        && CardinalityList(recs[..|recs| - 1], tys[..|tys| - 1], vs)
      else CardinalityList(recs, tys[..|tys| - 1], vs)
  }

  /** The cardinality records are no more than one per listed type, and each is the
      record of a listed incomplete class. */
  lemma {:induction false} CardinalityListOnly(recs: seq<Constraint>, tys: seq<Type>, vs: set<Equality>)
    requires CardinalityList(recs, tys, vs)
    ensures |recs| <= |tys|
    ensures forall rec | rec in recs :: exists ty | ty in tys && ty.ClassT? && !ty.ct.complete ::
      IsCardinality(rec, ty, Candidates(vs, ty))
    decreases |tys|
  {
    if tys != [] {
      var front := tys[..|tys| - 1];
      var ty := tys[|tys| - 1];
      if ty.ClassT? && !ty.ct.complete {
        var rest := recs[..|recs| - 1];
        CardinalityListOnly(rest, front, vs);
        forall rec | rec in recs ensures exists t | t in tys && t.ClassT? && !t.ct.complete ::
          IsCardinality(rec, t, Candidates(vs, t))
        {
          if rec in rest {
            var t :| t in front && t.ClassT? && !t.ct.complete && IsCardinality(rec, t, Candidates(vs, t));
            assert t in tys;
          } else {
            assert recs == rest + [recs[|recs| - 1]];
            assert rec == recs[|recs| - 1];
          }
        }
      } else {
        CardinalityListOnly(recs, front, vs);
        forall rec | rec in recs ensures exists t | t in tys && t.ClassT? && !t.ct.complete ::
          IsCardinality(rec, t, Candidates(vs, t))
        {
          var t :| t in front && t.ClassT? && !t.ct.complete && IsCardinality(rec, t, Candidates(vs, t));
          assert t in tys;
        }
      }
    }
  }

  lemma CardinalityListStep(log: seq<Constraint>, pre: seq<Constraint>, tys: seq<Type>, vs: set<Equality>, x: nat,
                            rec: Constraint)
    requires x < |tys| && pre <= log && CardinalityList(log[|pre|..], tys[..x], vs)
    requires tys[x].ClassT? && !tys[x].ct.complete ==> IsCardinality(rec, tys[x], Candidates(vs, tys[x]))
    ensures var next := if tys[x].ClassT? && !tys[x].ct.complete then log + [rec] else log;
      pre <= next && CardinalityList(next[|pre|..], tys[..x + 1], vs)
  {
    var upto := tys[..x + 1];
    assert upto[..|upto| - 1] == tys[..x] && upto[|upto| - 1] == tys[x];
    if tys[x].ClassT? && !tys[x].ct.complete {
      var next := log + [rec];
      assert next[|pre|..] == log[|pre|..] + [rec];
      assert next[|pre|..][..|next[|pre|..]| - 1] == log[|pre|..];
    }
  }

  lemma {:induction false} CardinalityListHas(recs: seq<Constraint>, tys: seq<Type>, vs: set<Equality>, k: nat)
    requires CardinalityList(recs, tys, vs) && k < |tys| && tys[k].ClassT? && !tys[k].ct.complete
    ensures exists j | 0 <= j < |recs| :: IsCardinality(recs[j], tys[k], Candidates(vs, tys[k]))
    decreases |tys|
  {
    var front := tys[..|tys| - 1];
    var ty := tys[|tys| - 1];
    if ty.ClassT? && !ty.ct.complete {
      var rest := recs[..|recs| - 1];
      if k < |tys| - 1 {
        CardinalityListHas(rest, front, vs, k);
        var j :| 0 <= j < |rest| && IsCardinality(rest[j], front[k], Candidates(vs, front[k]));
        assert recs[j] == rest[j];
      } else {
        assert IsCardinality(recs[|recs| - 1], tys[k], Candidates(vs, tys[k]));
      }
    } else {
      CardinalityListHas(recs, front, vs, k);
    }
  }

  /** The cardinality records of every listed type give each incomplete class its
      record. */
  lemma CardinalityListed(log: seq<Constraint>, pre: seq<Constraint>, tys: seq<Type>, ts: set<Type>)
    requires pre <= log && CardinalityList(log[|pre|..], tys, Pairs(ts)) && Elems(tys) == ts
    ensures CardinalityRecorded(log, ts)
  {
    forall ty | ty in ts && ty.ClassT? && !ty.ct.complete
      ensures CardinalityFor(log, ty, Candidates(Pairs(ts), ty))
    {
      var k :| 0 <= k < |tys| && tys[k] == ty;
      CardinalityListHas(log[|pre|..], tys, Pairs(ts), k);
      var j :| 0 <= j < |log[|pre|..]| && IsCardinality(log[|pre|..][j], ty, Candidates(Pairs(ts), ty));
      assert log[|pre| + j] == log[|pre|..][j];
      CardinalityForMeans(log, ty, Candidates(Pairs(ts), ty));
    }
  }

  /** A pair's records add the types of its requirement to the known types, which
      already hold its two sides. */
  lemma PairSides(lo: set<Type>, hi: set<Type>, v: Equality, parts: seq<Formula>, recs: seq<Constraint>)
    requires v.left in lo && v.right in lo
    requires NominallyCompatible(v.left, v.right) ==> recs == PairRecords(v, parts) && hi == lo + Sides(Conj(parts))
    requires !NominallyCompatible(v.left, v.right) ==> recs == [Equals(v, Const(false))] && hi == lo
    ensures hi == lo + LogSides(recs)
  {
    PairRecordsSides(v, parts);
  }

  /** One more step adds the types its records pair. */
  /** One more defined pair keeps every invariant of `DefineAll`'s loop. */
  lemma DefineStep(made: seq<Step>, made': seq<Step>, order: seq<Equality>, i: nat, lo: set<Type>)
    requires |made'| == |made| + 1 && made' == made + [made'[|made|]]
    requires Generated(made, lo, made'[|made|].lo) && lo <= made'[|made|].lo <= made'[|made|].hi
    requires PairConstrained(made'[|made|].lo, made'[|made|].hi, made'[|made|].v, made'[|made|].recs)
    requires i < |order| && VarsOf(made) == order[..i] && made'[|made|].v == order[i]
    requires made'[|made|].lo == lo + LogSides(RecordsOf(made))
    requires made'[|made|].hi == made'[|made|].lo + LogSides(made'[|made|].recs)
    ensures Generated(made', lo, made'[|made|].hi) && VarsOf(made') == order[..i + 1]
    ensures made'[|made|].hi == lo + LogSides(RecordsOf(made'))
  {
    var s := made'[|made|];
    GeneratedSnoc(made, lo, s.lo, s.hi, s);
    VarsOfSnoc(made, s, order, i);
    MadeSides(made, s, lo);
  }

  /** The formulas of a shared name pair the types the two one-way checks added. */
  lemma SharedNameSides(start: set<Type>, mid: set<Type>, after: set<Type>, cr: bool, cl: bool, fs: seq<Formula>)
    requires |fs| == (if cr then 1 else 0) + (if cl then 1 else 0)
    requires cr ==> mid == start + Sides(fs[0])
    requires !cr ==> mid == start
    requires cl ==> after == mid + Sides(fs[|fs| - 1])
    requires !cl ==> after == mid
    ensures after == start + Sides(Conj(fs))
  {
    assert Sides(Conj([])) == {};
    if cr {
      SidesGrow(start, start, mid, [], fs[0]);
      assert [fs[0]] == [] + [fs[0]];
    }
    var first := if cr then [fs[0]] else [];
    assert mid == start + Sides(Conj(first));
    if cl {
      SidesGrow(start, mid, after, first, fs[|fs| - 1]);
      assert fs == first + [fs[|fs| - 1]];
    } else {
      assert fs == first;
    }
  }

  lemma MadeSides(made: seq<Step>, s: Step, lo: set<Type>)
    requires s.lo == lo + LogSides(RecordsOf(made)) && s.hi == s.lo + LogSides(s.recs)
    ensures s.hi == lo + LogSides(RecordsOf(made + [s]))
  {
    RecordsOfAppend(made, s);
    LogSidesConcat(RecordsOf(made), s.recs);
  }

  /** A round adds the types that the records of its steps pair. */
  lemma RoundSides(steps: seq<Step>, made: seq<Step>, init: set<Type>, before: set<Type>, after: set<Type>)
    requires before == init + LogSides(RecordsOf(steps)) && after == before + LogSides(RecordsOf(made))
    ensures after == init + LogSides(RecordsOf(steps + made))
  {
    RecordsOfConcat(steps, made);
    LogSidesConcat(RecordsOf(steps), RecordsOf(made));
  }

  /** The overloads handled so far keep their formulas as the known types grow, and
      the next one joins them. */
  lemma OverloadsWiden(lo: set<Type>, before: set<Type>, after: set<Type>, lf: PyTD.Function, rf: PyTD.Function,
                       pa: Type, pb: Type, conj: seq<Formula>, g: Formula)
    requires lo <= before <= after && |conj| < |lf.signatures|
    requires forall x | 0 <= x < |conj| ::
      OneSignature(lo, before, lf.signatures[x], rf, pa, pb, conj[x]) && AllVarsIn(conj[x], before)
    requires OneSignature(before, after, lf.signatures[|conj|], rf, pa, pb, g) && AllVarsIn(g, after)
    ensures forall x | 0 <= x < |conj| + 1 ::
      OneSignature(lo, after, lf.signatures[x], rf, pa, pb, (conj + [g])[x]) && AllVarsIn((conj + [g])[x], after)
  {
    OneSignatureWiden(before, after, lo, after, lf.signatures[|conj|], rf, pa, pb, g);
    forall x | 0 <= x < |conj| + 1
      ensures OneSignature(lo, after, lf.signatures[x], rf, pa, pb, (conj + [g])[x])
      ensures AllVarsIn((conj + [g])[x], after)
    {
      if x < |conj| {
        assert (conj + [g])[x] == conj[x];
        OneSignatureWiden(lo, before, lo, after, lf.signatures[x], rf, pa, pb, conj[x]);
        AllVarsInMonotone(conj[x], before, after);
      } else {
        assert (conj + [g])[x] == g;
      }
    }
  }

  /** Every pair the steps cover is defined in the log of their records. */
  lemma AllDefined(steps: seq<Step>, lo: set<Type>, hi: set<Type>, log: seq<Constraint>, vs: set<Equality>)
    requires Generated(steps, lo, hi) && log == RecordsOf(steps) && Elems(VarsOf(steps)) == vs
    ensures forall v | v in vs :: DefinedIn(log, v)
  {
    forall v | v in vs ensures DefinedIn(log, v) {
      var k :| 0 <= k < |VarsOf(steps)| && VarsOf(steps)[k] == v;
      StepDefines(steps, lo, hi, log, k);
    }
  }

  /** Steps made between `mid` and `hi` extend steps generated between `lo` and `mid`. */
  lemma GeneratedExtend(steps: seq<Step>, made: seq<Step>, lo: set<Type>, mid: set<Type>, hi: set<Type>)
    requires Generated(steps, lo, mid) && Generated(made, mid, hi) && lo <= mid <= hi
    ensures Generated(steps + made, lo, hi)
  {
    GeneratedWiden(steps, lo, mid, lo, hi);
    GeneratedWiden(made, mid, hi, lo, hi);
    GeneratedConcat(steps, made, lo, hi);
  }

  /** Resolution fails only with errors generation can end with. */
  lemma ResolveErrorKind(ts: set<Type>, td: PyTD.TypeRef, path: Type)
    ensures Resolve(ts, td, path).Err? ==> GenerationError(Resolve(ts, td, path).error)
  {
  }

  /** Over a sound bound, two references that convert resolve, and their types can
      join the known ones. */
  lemma ResolvedPairFits(ts: set<Type>, u: set<Type>, ta: PyTD.TypeRef, tb: PyTD.TypeRef, pa: Type, pb: Type)
    requires ts <= u && Sound(u) && Within(u, ta, pa) && Within(u, tb, pb)
    requires FromPyTD(ta, true, Some(pa)).Ok? && FromPyTD(tb, true, Some(pb)).Ok?
    ensures Resolve(ts, ta, pa).Ok? && Resolve(ts, tb, pb).Ok?
    ensures KeysInjective(ts + {Resolve(ts, ta, pa).value, Resolve(ts, tb, pb).value})
  {
    ResolveSound(ts, u, ta, pa);
    ResolveSound(ts, u, tb, pb);
    var grown := ts + {Resolve(ts, ta, pa).value, Resolve(ts, tb, pb).value};
    assert grown <= u;
    forall a, b | a in grown && b in grown && Key(a) == Key(b) ensures a == b {
      assert a in u && b in u;
    }
  }

  class SATEncoder {
    /** The types met so far. */
    var types: set<Type>
    /** The records handed to the solver, in order. */
    var log: seq<Constraint>
    /** The pairs whose constraints were generated, in order, with their records. */
    ghost var steps: seq<Step>
    /** The sets of pairs handed to `GenerateConstraints`, in order. */
    ghost var batches: seq<set<Equality>>

    /** The assertions in `__eq__` never fire: no two known types share a key. */
    ghost predicate Valid()
      reads this`types
    {
      KeysInjective(types)
    }

    constructor ()
      ensures Valid()
      ensures types == {} && log == [] && steps == [] && batches == []
    {
      types, log := {}, [];
      steps, batches := [], [];
    }

    /** `_NewEquality`: both types become known, and their pair is returned. Two
        different types with one key would make `__eq__` fail: that is the error. */
    method NewEquality(a: Type, b: Type) returns (r: Result<Equality, Error>)
      requires Valid()
      modifies this`types
      ensures Valid()
      ensures r.Ok? <==> KeysInjective(old(types) + {a, b})
      ensures r.Ok? ==> types == old(types) + {a, b} && r.value == MakeEquality(a, b)
      ensures r.Err? ==> types == old(types) && r.error.KeyClash?
    {
      if KeysInjective(types + {a, b}) {
        types := types + {a, b};
        r := Ok(MakeEquality(a, b));
      } else {
        r := Err(KeyClash(if KeysInjective(types + {a}) then Key(b) else Key(a)));
      }
    }

    /** The equality for one position of two signatures: both references resolved
        against the types known when the position is reached, then paired. The
        first failing resolution is the error; a reference that converts always
        resolves to a type of a sound bound. */
    method ResolvePair(ta: PyTD.TypeRef, tb: PyTD.TypeRef, pa: Type, pb: Type, ghost u: set<Type>)
      returns (r: Result<Equality, Error>)
      requires Valid() && types <= u && Within(u, ta, pa) && Within(u, tb, pb)
      modifies this`types
      ensures Valid() && old(types) <= types <= u
      ensures Resolve(old(types), ta, pa).Err? ==> r == Err(Resolve(old(types), ta, pa).error)
      ensures Resolve(old(types), ta, pa).Ok? && Resolve(old(types), tb, pb).Err? ==>
        r == Err(Resolve(old(types), tb, pb).error)
      ensures Resolve(old(types), ta, pa).Ok? && Resolve(old(types), tb, pb).Ok? ==>
        (r.Ok? <==> KeysInjective(old(types) + {Resolve(old(types), ta, pa).value, Resolve(old(types), tb, pb).value}))
      ensures r.Ok? ==> PairResolves(old(types), ta, tb, pa, pb, r.value)
      ensures r.Ok? ==> types == old(types) + {r.value.left, r.value.right}
      ensures r.Err? ==> types == old(types) && GenerationError(r.error)
      ensures Sound(u) && FromPyTD(ta, true, Some(pa)).Ok? && FromPyTD(tb, true, Some(pb)).Ok? ==> r.Ok?
    {
      ghost var promised := Sound(u) && FromPyTD(ta, true, Some(pa)).Ok? && FromPyTD(tb, true, Some(pb)).Ok?;
      if promised {
        ResolvedPairFits(types, u, ta, tb, pa, pb);
      }
      var x := Resolve(types, ta, pa);
      if x.Err? {
        ResolveErrorKind(types, ta, pa);
        return Err(x.error);
      }
      var y := Resolve(types, tb, pb);
      if y.Err? {
        ResolveErrorKind(types, tb, pb);
        return Err(y.error);
      }
      r := NewEquality(x.value, y.value);
    }

    /** `_SignaturesEqual`: false when the arities differ, otherwise one equality per
        position whose references differ, parameters first, the return type last. */
    method SignaturesEqual(a: PyTD.Signature, b: PyTD.Signature, pa: Type, pb: Type, ghost u: set<Type>)
      returns (r: Result<Formula, Error>)
      requires Valid() && types <= u && SigWithin(u, a, pa) && SigWithin(u, b, pb)
      modifies this`types
      ensures Valid() && old(types) <= types <= u
      ensures r.Ok? ==> SigFormula(old(types), types, a, b, pa, pb, r.value) && AllVarsIn(r.value, types)
      ensures r.Ok? ==> types == old(types) + Sides(r.value)
      ensures r.Err? ==> GenerationError(r.error)
      ensures Sound(u) && SigConverts(a, pa) && SigConverts(b, pb) ==> r.Ok?
    {
      if |a.params| != |b.params| {
        return Ok(Const(false));
      }
      var eqs: seq<Formula> := [];
      for i := 0 to |a.params| + 1
        invariant Valid() && old(types) <= types <= u
        invariant Collected(old(types), types, a, b, pa, pb, i, eqs)
        invariant types == old(types) + Sides(Conj(eqs))
      {
        if RefAt(a, i) != RefAt(b, i) {
          ghost var before := types;
          var e :- ResolvePair(RefAt(a, i), RefAt(b, i), pa, pb, u);
          CollectDiff(old(types), before, types, a, b, pa, pb, i, eqs, e);
          SidesGrow(old(types), before, types, eqs, Var(e));
          eqs := eqs + [Var(e)];
        } else {
          CollectSame(old(types), types, a, b, pa, pb, i, eqs);
        }
      }
      CollectDone(old(types), types, a, b, pa, pb, eqs);
      r := Ok(Conj(eqs));
    }

    /** `_FunctionsEqualOneWay`: every overload of the left method must equal some
        overload of the right one. */
    method FunctionsEqualOneWay(lf: PyTD.Function, rf: PyTD.Function, pa: Type, pb: Type, ghost u: set<Type>)
      returns (r: Result<Formula, Error>)
      requires Valid() && types <= u && FuncWithin(u, lf, pa) && FuncWithin(u, rf, pb)
      modifies this`types
      ensures Valid() && old(types) <= types <= u
      ensures r.Ok? ==> OneWay(old(types), types, lf, rf, pa, pb, r.value) && AllVarsIn(r.value, types)
      ensures r.Ok? ==> types == old(types) + Sides(r.value)
      ensures r.Err? ==> GenerationError(r.error)
      ensures Sound(u) && FuncConverts(lf, pa) && FuncConverts(rf, pb) ==> r.Ok?
    {
      var conj: seq<Formula> := [];
      for i := 0 to |lf.signatures|
        invariant Valid() && old(types) <= types <= u
        invariant |conj| == i
        invariant types == old(types) + Sides(Conj(conj))
        invariant forall x | 0 <= x < i ::
          OneSignature(old(types), types, lf.signatures[x], rf, pa, pb, conj[x]) && AllVarsIn(conj[x], types)
      {
        ghost var before := types;
        var g :- SignatureAgainst(lf.signatures[i], rf, pa, pb, u);
        OverloadsWiden(old(types), before, types, lf, rf, pa, pb, conj, g);
        SidesGrow(old(types), before, types, conj, g);
        conj := conj + [g];
      }
      r := Ok(Conj(conj));
    }

    /** One overload of the left method against every overload of the right one:
        the disjunction of their signature formulas, in the right method's order. */
    method SignatureAgainst(ls: PyTD.Signature, rf: PyTD.Function, pa: Type, pb: Type, ghost u: set<Type>)
      returns (r: Result<Formula, Error>)
      requires Valid() && types <= u && SigWithin(u, ls, pa) && FuncWithin(u, rf, pb)
      modifies this`types
      ensures Valid() && old(types) <= types <= u
      ensures r.Ok? ==> OneSignature(old(types), types, ls, rf, pa, pb, r.value) && AllVarsIn(r.value, types)
      ensures r.Ok? ==> types == old(types) + Sides(r.value)
      ensures r.Err? ==> GenerationError(r.error)
      ensures Sound(u) && SigConverts(ls, pa) && FuncConverts(rf, pb) ==> r.Ok?
    {
      var disj: seq<Formula> := [];
      for j := 0 to |rf.signatures|
        invariant Valid() && old(types) <= types <= u
        invariant |disj| == j
        invariant types == old(types) + Sides(Conj(disj))
        invariant forall y | 0 <= y < j ::
          SigFormula(old(types), types, ls, rf.signatures[y], pa, pb, disj[y]) && AllVarsIn(disj[y], types)
      {
        ghost var before := types;
        var f :- SignaturesEqual(ls, rf.signatures[j], pa, pb, u);
        SigFormulaWiden(before, types, old(types), types, ls, rf.signatures[j], pa, pb, f);
        forall y | 0 <= y < j
          ensures SigFormula(old(types), types, ls, rf.signatures[y], pa, pb, disj[y])
          ensures AllVarsIn(disj[y], types)
        {
          SigFormulaWiden(old(types), before, old(types), types, ls, rf.signatures[y], pa, pb, disj[y]);
          AllVarsInMonotone(disj[y], before, types);
        }
        SidesGrow(old(types), before, types, disj, f);
        disj := disj + [f];
      }
      SidesDisj(disj);
      r := Ok(Disj(disj));
    }

    /** The formulas a name both types have contributes: the check of the left
        method against the right one when the right type is complete, and the converse
        when the left type is. Each method is read with the other type as its path. */
    method SharedName(p: PairView, name: string, ghost u: set<Type>)
      returns (r: Result<seq<Formula>, Error>)
      requires Valid() && types <= u && Closed(u) && p.left in types && p.right in types
      requires p == ViewOf(p.left, p.right) && Shared(p, name)
      modifies this`types
      ensures Valid() && old(types) <= types <= u
      ensures r.Ok? ==> Covered(old(types), types, p, name, r.value) && Const(false) !in r.value
      ensures r.Ok? ==> forall f | f in r.value :: PartFor(old(types), types, p, name, f)
      ensures r.Ok? ==> types == old(types) + Sides(Conj(r.value))
      ensures r.Err? ==> GenerationError(r.error)
      ensures Sound(u) && Convertible(u) ==> r.Ok?
    {
      var fs: seq<Formula> := [];
      if p.cr {
        var f :- FunctionsEqualOneWay(p.sl[name], p.sr[name], p.right, p.left, u);
        fs := fs + [f];
      }
      ghost var mid := types;
      if p.cl {
        var f :- FunctionsEqualOneWay(p.sr[name], p.sl[name], p.left, p.right, u);
        OneWayWiden(mid, types, old(types), types, p.sr[name], p.sl[name], p.left, p.right, f);
        if p.cr {
          OneWayWiden(old(types), mid, old(types), types, p.sl[name], p.sr[name], p.right, p.left, fs[0]);
        }
        fs := fs + [f];
      }
      SharedNameSides(old(types), mid, types, p.cr, p.cl, fs);
      SharedNameParts(old(types), types, p, name, fs);
      r := Ok(fs);
    }

    /** The scan over the sorted names of one compatible pair: a shared name
        contributes its formulas, and the first name a complete side lacks contributes
        false and ends the scan. */
    method ScanNames(p: PairView, names: seq<string>, ghost u: set<Type>)
      returns (r: Result<seq<Formula>, Error>)
      requires Valid() && types <= u && Closed(u) && p.left in types && p.right in types
      requires p == ViewOf(p.left, p.right)
      modifies this`types
      ensures Valid() && old(types) <= types <= u
      ensures r.Ok? ==> Requirement(old(types), types, p, names, r.value) && Distinct(r.value)
      ensures r.Ok? ==> types == old(types) + Sides(Conj(r.value))
      ensures r.Err? ==> GenerationError(r.error)
      ensures Sound(u) && Convertible(u) ==> r.Ok?
    {
      var conj: seq<Formula> := [];
      assert Sides(Conj(conj)) == {};
      var i := 0;
      while i < |names|
        invariant Valid() && old(types) <= types <= u
        invariant ScanInvariant(old(types), types, p, names, i, conj)
        invariant types == old(types) + Sides(Conj(conj))
      {
        var name := names[i];
        if name in p.sl && name in p.sr {
          ghost var before := types;
          var fs :- SharedName(p, name, u);
          SharedNameWiden(old(types), before, types, p, name, fs);
          SharedStep(old(types), before, types, p, names, i, conj, fs);
          SidesUpdate(old(types), before, types, conj, fs, AddAll(conj, fs));
          conj := AddAll(conj, fs);
        } else if (name !in p.sl && p.cl) || (name !in p.sr && p.cr) {
          MissingStop(old(types), types, p, names, i, conj);
          assert Sides(Const(false)) == {};
          SidesGrow(old(types), types, types, conj, Const(false));
          return Ok(conj + [Const(false)]);
        } else {
          SkipStep(old(types), types, p, names, i, conj);
        }
        i := i + 1;
      }
      ScanEnd(old(types), types, p, names, conj);
      r := Ok(conj);
    }

    /** One pair of `_GenerateConstraints`. A nominally incompatible pair is recorded
        as false. Otherwise the requirement is scanned from the names of both
        structures in order; it is equivalent to the pair when both sides are complete,
        and implied by it (with a hint in its favour) otherwise. */
    method GenerateConstraint(v: Equality, ghost u: set<Type>)
      returns (r: Outcome<Error>, ghost names: seq<string>, ghost parts: seq<Formula>)
      requires Valid() && types <= u && Closed(u) && v.left in types && v.right in types
      modifies this`types, this`log
      ensures Valid() && old(types) <= types <= u
      ensures !NominallyCompatible(v.left, v.right) ==>
        r.Pass? && types == old(types) && log == old(log) + [Equals(v, Const(false))]
      ensures NominallyCompatible(v.left, v.right) && r.Pass? ==>
        && Sorted(names, Strings.Less)
        && Elems(names) == StructureOf(v.left).Keys + StructureOf(v.right).Keys
        && Requirement(old(types), types, ViewOf(v.left, v.right), names, parts)
        && Distinct(parts)
        && log == old(log) + PairRecords(v, parts)
        && types == old(types) + Sides(Conj(parts))
      ensures r.Fail? ==> log == old(log) && GenerationError(r.error)
      ensures Sound(u) && Convertible(u) ==> r.Pass?
    {
      if !NominallyCompatible(v.left, v.right) {
        log := log + [Equals(v, Const(false))];
        return Pass, [], [];
      }
      r, names, parts := StructuralConstraint(v, u);
    }

    /** The records of a nominally compatible pair: its requirement over the names
        of both structures, in order. */
    method StructuralConstraint(v: Equality, ghost u: set<Type>)
      returns (r: Outcome<Error>, ghost names: seq<string>, ghost parts: seq<Formula>)
      requires Valid() && types <= u && Closed(u) && v.left in types && v.right in types
      modifies this`types, this`log
      ensures Valid() && old(types) <= types <= u
      ensures r.Pass? ==>
        && Sorted(names, Strings.Less)
        && Elems(names) == StructureOf(v.left).Keys + StructureOf(v.right).Keys
        && Requirement(old(types), types, ViewOf(v.left, v.right), names, parts)
        && Distinct(parts)
        && log == old(log) + PairRecords(v, parts)
        && types == old(types) + Sides(Conj(parts))
      ensures r.Fail? ==> log == old(log) && GenerationError(r.error)
      ensures Sound(u) && Convertible(u) ==> r.Pass?
    {
      var keys := StructureOf(v.left).Keys + StructureOf(v.right).Keys;
      StringOrder(keys);
      var order := SortBy(keys, Strings.Less);
      names := order;
      var res := ScanNames(ViewOf(v.left, v.right), order, u);
      if res.Err? {
        return Fail(res.error), names, [];
      }
      parts := res.value;
      log := log + PairRecords(v, res.value);
      r := Pass;
    }

    /** One pair's records, seen from the batch loop: they are appended to the log as
        the step of that pair, and define its variable. */
    method DefinePair(v: Equality, ghost u: set<Type>) returns (r: Outcome<Error>, ghost recs: seq<Constraint>)
      requires Valid() && types <= u && Closed(u) && v.left in types && v.right in types
      requires log == RecordsOf(steps)
      modifies this`types, this`log, this`steps
      ensures Valid() && old(types) <= types <= u && log == RecordsOf(steps)
      ensures r.Pass? ==> steps == old(steps) + [Step(v, old(types), types, recs)]
      ensures r.Pass? ==> log == old(log) + recs && PairConstrained(old(types), types, v, recs)
      ensures r.Pass? ==> types == old(types) + LogSides(recs)
      ensures r.Pass? ==> DefinedIn(log, v)
      ensures r.Fail? ==> steps == old(steps) && log == old(log) && GenerationError(r.error)
      ensures Sound(u) && Convertible(u) ==> r.Pass?
    {
      ghost var before := log;
      ghost var names, parts;
      r, names, parts := GenerateConstraint(v, u);
      recs := log[|before|..];
      if r.Pass? {
        assert log == before + recs;
        if NominallyCompatible(v.left, v.right) {
          assert recs == PairRecords(v, parts);
        }
        PairSides(old(types), types, v, parts, recs);
        PairConstrainedDefines(before, old(types), types, v, recs);
        RecordsOfAppend(steps, Step(v, old(types), types, recs));
        steps := steps + [Step(v, old(types), types, recs)];
      }
    }

    /** The loop of `_GenerateConstraints`: the pairs of `order`, one after the other,
        each a step of its own. */
    method DefineAll(order: seq<Equality>, ghost u: set<Type>) returns (r: Outcome<Error>, ghost made: seq<Step>)
      requires Valid() && types <= u && Closed(u) && SidesIn(Elems(order), types)
      requires log == RecordsOf(steps)
      modifies this`types, this`log, this`steps
      ensures Valid() && old(types) <= types <= u && old(log) <= log && log == RecordsOf(steps)
      ensures steps == old(steps) + made && Generated(made, old(types), types)
      ensures r.Pass? ==> VarsOf(made) == order
      ensures r.Pass? ==> types == old(types) + LogSides(RecordsOf(made))
      ensures r.Pass? ==> forall v | v in order :: DefinedIn(log, v)
      ensures r.Fail? ==> GenerationError(r.error)
      ensures Sound(u) && Convertible(u) ==> r.Pass?
    {
      made := [];
      assert LogSides(RecordsOf(made)) == {};
      for i := 0 to |order|
        invariant Valid() && old(types) <= types <= u && old(log) <= log && log == RecordsOf(steps)
        invariant steps == old(steps) + made && Generated(made, old(types), types)
        invariant VarsOf(made) == order[..i]
        invariant types == old(types) + LogSides(RecordsOf(made))
      {
        assert order[i] in Elems(order);
        var res;
        res, made := DefineNext(order, i, old(types), old(steps), made, u);
        if res.Fail? {
          return res, made;
        }
      }
      assert order[..|order|] == order;
      MadeDefines(old(steps), made, order, old(types), types, log);
      r := Pass;
    }

    /** One pass of `DefineAll`'s loop: the pair at position `i` of `order` is
        defined after the `made` steps before it. */
    method DefineNext(order: seq<Equality>, i: nat, ghost lo: set<Type>, ghost pre: seq<Step>,
                      ghost made: seq<Step>, ghost u: set<Type>)
      returns (r: Outcome<Error>, ghost made': seq<Step>)
      requires Valid() && types <= u && Closed(u) && i < |order| && order[i].left in types && order[i].right in types
      requires log == RecordsOf(steps) && steps == pre + made && lo <= types
      requires Generated(made, lo, types) && VarsOf(made) == order[..i] && types == lo + LogSides(RecordsOf(made))
      modifies this`types, this`log, this`steps
      ensures Valid() && old(types) <= types <= u && old(log) <= log && log == RecordsOf(steps)
      ensures steps == pre + made' && Generated(made', lo, types)
      ensures r.Pass? ==> VarsOf(made') == order[..i + 1] && types == lo + LogSides(RecordsOf(made'))
      ensures r.Fail? ==> made' == made && GenerationError(r.error)
      ensures Sound(u) && Convertible(u) ==> r.Pass?
    {
      var v := order[i];
      ghost var known := types;
      ghost var recs;
      r, recs := DefinePair(v, u);
      if r.Fail? {
        GeneratedWiden(made, lo, known, lo, types);
        made' := made;
        return;
      }
      made' := made + [Step(v, known, types, recs)];
      SeqAssoc(pre, made, [Step(v, known, types, recs)]);
      DefineStep(made, made', order, i, lo);
    }

    /** `_GenerateConstraints`: the pairs of a batch, in sorted order, one after the
        other. */
    method GenerateConstraints(batch: set<Equality>, ghost u: set<Type>)
      returns (r: Outcome<Error>, ghost order: seq<Equality>, ghost made: seq<Step>)
      requires Valid() && types <= u && Closed(u) && SidesIn(batch, types)
      requires log == RecordsOf(steps)
      modifies this`types, this`log, this`steps, this`batches
      ensures Valid() && old(types) <= types <= u && old(log) <= log && log == RecordsOf(steps)
      ensures steps == old(steps) + made && Generated(made, old(types), types)
      ensures r.Pass? ==> batches == old(batches) + [batch]
      ensures r.Pass? ==> VarsOf(made) == order
      ensures r.Pass? ==> types == old(types) + LogSides(RecordsOf(made))
      ensures r.Pass? ==> Sorted(order, EqLess) && Distinct(order) && Elems(order) == batch
      ensures r.Pass? ==> forall v | v in batch :: DefinedIn(log, v)
      ensures r.Fail? ==> GenerationError(r.error)
      ensures Sound(u) && Convertible(u) ==> r.Pass?
    {
      EqLessStrictTotal(batch, types);
      var sortedBatch := SortBy(batch, EqLess);
      SortedDistinct(sortedBatch, EqLess);
      order := sortedBatch;
      r, made := DefineAll(sortedBatch, u);
      if r.Pass? {
        batches := batches + [batch];
      }
    }

    /** The state between two rounds of the worklist loop: `variables` are the pairs
        of the known types, and those not `added` in the last round have their
        constraints, each generated once, as steps whose records make up the log. */
    ghost predicate Between(variables: set<Equality>, added: set<Equality>, init: set<Type>)
      reads this
    {
      && variables == Pairs(types) && added <= variables
      && EachPairOnce(VarsOf(steps), batches, variables - added)
      && init <= types && log == RecordsOf(steps) && Generated(steps, init, types)
      && types == init + LogSides(log)
    }

    /** One round of the worklist loop of `Generate`: the constraints of the pairs
        added last, and the pairs of the types known now. */
    method Round(variables: set<Equality>, added: set<Equality>, ghost init: set<Type>, ghost u: set<Type>)
      returns (r: Outcome<Error>, grown: set<Equality>)
      requires Valid() && types <= u && Closed(u) && Between(variables, added, init)
      modifies this`types, this`log, this`steps, this`batches
      ensures Valid() && old(types) <= types <= u && old(log) <= log
      ensures r.Pass? ==> variables <= grown && Between(grown, grown - variables, init)
      ensures r.Pass? && types == old(types) ==> grown == variables
      ensures r.Fail? ==> GenerationError(r.error)
      ensures Sound(u) && Convertible(u) ==> r.Pass?
    {
      PairsSides(types);
      ghost var before, stepsBefore, batchesBefore := types, steps, batches;
      ghost var order, made;
      r, order, made := GenerateConstraints(added, u);
      if r.Fail? {
        return r, variables;
      }
      BatchStep(VarsOf(stepsBefore), batchesBefore, order, variables - added);
      VarsOfConcat(stepsBefore, made);
      assert (variables - added) + added == variables;
      PairsMonotone(before, types);
      GeneratedExtend(stepsBefore, made, init, before, types);
      RoundSides(stepsBefore, made, init, before, types);
      grown := Pairs(types);
      assert grown - (grown - variables) == variables;
    }

    /** The worklist loop of `Generate`: constraints for every pair of known types,
        handing over the pairs of newly met types until no new pair appears. */
    method Saturate(ghost u: set<Type>) returns (r: Outcome<Error>, variables: set<Equality>)
      requires Valid() && types <= u && Closed(u) && log == [] && steps == [] && batches == []
      modifies this`types, this`log, this`steps, this`batches
      ensures Valid() && old(types) <= types <= u
      ensures r.Pass? ==> variables == Pairs(types) && EachPairOnce(VarsOf(steps), batches, variables)
      ensures r.Pass? ==> forall v | v in variables :: DefinedIn(log, v)
      ensures r.Pass? ==> log == RecordsOf(steps) && Generated(steps, old(types), types)
      ensures r.Pass? ==> types == old(types) + LogSides(log)
      ensures r.Fail? ==> GenerationError(r.error)
      ensures Sound(u) && Convertible(u) ==> r.Pass?
    {
      variables := Pairs(types);
      var added := variables;
      assert LogSides(log) == {};
      while added != {}
        invariant Valid() && old(types) <= types <= u
        invariant Between(variables, added, old(types))
        decreases Room(u, types, added)
      {
        ghost var before := types;
        var res, grown := Round(variables, added, old(types), u);
        if res.Fail? {
          return res, variables;
        }
        RoundShrinks(u, before, types, added, grown - variables);
        added := grown - variables;
        variables := grown;
      }
      assert variables - added == variables;
      AllDefined(steps, old(types), types, log, variables);
      r := Pass;
    }

    /** The innermost loop of the transitivity records: `a` and the incomplete `b`
        against every known `c` other than both. */
    method TransitivityThrough(a: Type, b: Type, sortedTypes: seq<Type>)
      requires a != b
      modifies this`log
      ensures log == old(log) + TransLasts(a, b, sortedTypes)
    {
      for z := 0 to |sortedTypes|
        invariant log == old(log) + TransLasts(a, b, sortedTypes[..z])
      {
        var c := sortedTypes[z];
        TransLastsStep(log, old(log), a, b, sortedTypes, z);
        if a != c && b != c {
          log := log + [TransRecord(a, b, c)];
        }
      }
      assert sortedTypes[..|sortedTypes|] == sortedTypes;
    }

    /** The middle loop of the transitivity records: `a` against every incomplete `b`
        other than itself. */
    method TransitivityFrom(a: Type, sortedIncomplete: seq<Type>, sortedTypes: seq<Type>)
      modifies this`log
      ensures log == old(log) + TransMiddles(a, sortedIncomplete, sortedTypes)
    {
      for y := 0 to |sortedIncomplete|
        invariant log == old(log) + TransMiddles(a, sortedIncomplete[..y], sortedTypes)
      {
        var b := sortedIncomplete[y];
        TransMiddlesStep(log, old(log), a, sortedIncomplete, sortedTypes, y);
        if a != b {
          TransitivityThrough(a, b, sortedTypes);
        }
      }
      assert sortedIncomplete[..|sortedIncomplete|] == sortedIncomplete;
    }

    /** The transitivity records of `Generate`: for every known `a`, incomplete `b`
        and known `c`, all three different, in sorted order. */
    method AddTransitivity(sortedTypes: seq<Type>) returns (ghost sortedIncomplete: seq<Type>)
      requires Valid() && Sorted(sortedTypes, TypeLess) && Elems(sortedTypes) == types
      modifies this`log
      ensures Sorted(sortedIncomplete, TypeLess) && Elems(sortedIncomplete) == set t | t in types && !Complete(t)
      ensures log == old(log) + TransAll(sortedTypes, sortedIncomplete, sortedTypes)
      ensures TransitivityRecorded(log, types)
    {
      var incomplete := set t | t in types && !Complete(t);
      var sortedIncompleteTypes := SortTypes(incomplete);
      sortedIncomplete := sortedIncompleteTypes;
      for x := 0 to |sortedTypes|
        invariant log == old(log) + TransAll(sortedTypes[..x], sortedIncomplete, sortedTypes)
      {
        TransAllStep(log, old(log), sortedTypes, sortedIncomplete, sortedTypes, x);
        TransitivityFrom(sortedTypes[x], sortedIncompleteTypes, sortedTypes);
      }
      assert sortedTypes[..|sortedTypes|] == sortedTypes;
      TransitivityListed(log, types, sortedTypes, sortedIncomplete);
    }

    /** The cardinality records of `Generate`: every incomplete class, in sorted
        order, gets at least one of its candidates. */
    method AddCardinality(variables: set<Equality>, sortedTypes: seq<Type>)
      requires Valid() && variables == Pairs(types) && Elems(sortedTypes) == types
      modifies this`log
      ensures old(log) <= log && CardinalityList(log[|old(log)|..], sortedTypes, variables)
      ensures CardinalityRecorded(log, types)
    {
      PairsSides(types);
      for x := 0 to |sortedTypes|
        invariant old(log) <= log && CardinalityList(log[|old(log)|..], sortedTypes[..x], variables)
      {
        var ty := sortedTypes[x];
        assert ty in types;
        if ty.ClassT? && !ty.ct.complete {
          var cands := Candidates(variables, ty);
          EqLessStrictTotal(cands, types);
          var vs := SortBy(cands, EqLess);
          CardinalityListStep(log, old(log), sortedTypes, variables, x, BetweenNM(vs, 1, None, ty));
          log := log + [BetweenNM(vs, 1, None, ty)];
        } else {
          CardinalityListStep(log, old(log), sortedTypes, variables, x, Implies(Const(true), Const(true)));
        }
      }
      assert sortedTypes[..|sortedTypes|] == sortedTypes;
      CardinalityListed(log, old(log), sortedTypes, types);
    }

    /** `Generate`: the constraints of every pair of the given classes and of every
        type met on the way, then the transitivity and cardinality records. The log is
        exactly the pairs' records in the order they were generated, then the
        transitivity records, then the cardinality records. */
    method Generate(complete: seq<PyTD.Class>, incomplete: seq<PyTD.Class>, ghost u: set<Type>)
      returns (r: Outcome<Error>, ghost sortedTypes: seq<Type>, ghost sortedIncomplete: seq<Type>)
      requires Valid() && types == {} && log == [] && steps == [] && batches == []
      requires InitialTypes(complete, incomplete) <= u && Closed(u)
      modifies this`types, this`log, this`steps, this`batches
      ensures Valid() && types <= u
      ensures !KeysInjective(InitialTypes(complete, incomplete)) ==> r.Fail? && r.error.KeyClash?
      ensures r.Fail? ==> GenerationError(r.error)
      ensures Sound(u) && Convertible(u) ==> r.Pass?
      ensures r.Pass? ==> InitialTypes(complete, incomplete) <= types
      ensures r.Pass? ==> types == InitialTypes(complete, incomplete) + LogSides(RecordsOf(steps))
      ensures r.Pass? ==> Generated(steps, InitialTypes(complete, incomplete), types)
      ensures r.Pass? ==> EachPairOnce(VarsOf(steps), batches, Pairs(types))
      ensures r.Pass? ==> Sorted(sortedTypes, TypeLess) && Elems(sortedTypes) == types
      ensures r.Pass? ==> Sorted(sortedIncomplete, TypeLess) && Elems(sortedIncomplete) == set t | t in types && !Complete(t)
      ensures r.Pass? ==>
        var pre := RecordsOf(steps) + TransAll(sortedTypes, sortedIncomplete, sortedTypes);
        pre <= log && CardinalityList(log[|pre|..], sortedTypes, Pairs(types))
      ensures r.Pass? ==> forall v | v in Pairs(types) :: DefinedIn(log, v)
      ensures r.Pass? ==> TransitivityRecorded(log, types)
      ensures r.Pass? ==> CardinalityRecorded(log, types)
    {
      var classTypes := InitialTypes(complete, incomplete);
      if !KeysInjective(classTypes) {
        var a, b :| a in classTypes && b in classTypes && Key(a) == Key(b) && a != b;
        return Fail(KeyClash(Key(a))), [], [];
      }
      types := classTypes;
      var res, variables := Saturate(u);
      if res.Fail? {
        return res, [], [];
      }
      ghost var saturated := log;
      var sorted := SortTypes(types);
      sortedTypes := sorted;
      sortedIncomplete := AddTransitivity(sorted);
      forall v | v in variables ensures DefinedIn(log, v) {
        DefinedInGrows(saturated, log, v);
      }
      ghost var transitive := log;
      AddCardinality(variables, sorted);
      forall v | v in variables ensures DefinedIn(log, v) {
        DefinedInGrows(transitive, log, v);
      }
      TransitivityRecordedGrows(transitive, log, types);
      r := Pass;
    }

    /** `Solve`, reading an assignment the backend found: for every pair it set
        true whose other side is complete, the incomplete side's class is matched to
        that side; a later pair in sorted order overrides an earlier one, and a
        union in the matched position is an error. */
    method Solve(solution: map<Equality, Option<bool>>) returns (r: Result<map<PyTD.Class, PyTD.TypeRef>, Error>)
      requires Valid() && SidesIn(solution.Keys, types)
      ensures r.Err? <==> exists v | v in solution :: Recorded(solution, v) && Incomp(v).UnionT?
      ensures r.Err? ==> r.error == NoClassAttribute
      ensures r.Ok? ==> forall c :: c in r.value <==> exists v :: RecordedFor(solution, v, c)
      ensures r.Ok? ==> forall c | c in r.value :: exists v ::
        RecordedFor(solution, v, c) && LastRecorded(solution, v) && r.value[c] == ToPyTD(Other(v, Incomp(v)))
    {
      var order := SortPairs(solution.Keys, types);
      ghost var from;
      r, from := ReadMatches(solution, order);
      if r.Ok? {
        forall v | v in solution ensures !(Recorded(solution, v) && Incomp(v).UnionT?) {
          assert v in Elems(order);
          var k :| 0 <= k < |order| && order[k] == v;
          NoUnionAt(solution, order, |order|, k);
        }
        SolvedAll(solution, order, r.value, from);
      }
    }
  }
}
