/** What the encoder's formulas say: which type a reference inside a signature stands
    for, the shape of the formula built for two signatures, for two methods and for one
    pair of types, and the universe of types the fixpoint stays inside. */
module Shapes {
  import opened Wrappers
  import opened Sorting
  import Strings
  import PyTD
  import opened Structures
  import opened Types
  import opened Equalities
  import opened Formulas

  // References and the types they stand for

  /** The known classes answering to a name. */
  function Matches(ts: set<Type>, name: string): set<Type>
  {
    set t | t in ts && t.ClassT? && t.ct.cls.name == name
  }

  /** `_TypeFromPyTD`: a class reference whose name a known class carries resolves to
      that class, and it must be the only one; anything else is converted with
      `path`. */
  function Resolve(ts: set<Type>, td: PyTD.TypeRef, path: Type): (r: Result<Type, Error>)
    ensures td.ClassRef? && |Matches(ts, td.name)| > 1 ==> r == Err(Ambiguous(td.name))
    ensures td.ClassRef? && |Matches(ts, td.name)| == 1 ==> r.Ok? && Matches(ts, td.name) == {r.value}
    ensures !(td.ClassRef? && |Matches(ts, td.name)| > 0) ==> r == FromPyTD(td, true, Some(path))
    ensures r.Err? ==> r.error.Ambiguous? || r == FromPyTD(td, true, Some(path))
  {
    if td.ClassRef? && |Matches(ts, td.name)| > 0 then
      var matches := Matches(ts, td.name);
      if |matches| > 1 then Err(Ambiguous(td.name))
      else
        OnlyMember(matches);
        var t :| t in matches;
        Ok(t)
    else FromPyTD(td, true, Some(path))
  }

  lemma OnlyMember<T>(s: set<T>)
    requires |s| == 1
    ensures forall x, y | x in s && y in s :: x == y
  {
    var x0 :| x0 in s;
    assert |s - {x0}| == 0;
    assert s == {x0};
  }

  /** `e` is the pair `_NewEquality` makes of `ta` (read with `pa`) and `tb` (read
      with `pb`), both resolved against the known types `ts`. */
  ghost predicate PairResolves(ts: set<Type>, ta: PyTD.TypeRef, tb: PyTD.TypeRef, pa: Type, pb: Type, e: Equality)
  {
    var x := Resolve(ts, ta, pa);
    var y := Resolve(ts, tb, pb);
    x.Ok? && y.Ok? && e == MakeEquality(x.value, y.value)
  }

  /** `e` is that pair for some set of known types between `lo` and `hi`: the types
      known when the enclosing call began and when it ended. */
  ghost predicate EqualityFor(lo: set<Type>, hi: set<Type>, ta: PyTD.TypeRef, tb: PyTD.TypeRef, pa: Type, pb: Type, e: Equality)
  {
    exists ts | lo <= ts <= hi :: PairResolves(ts, ta, tb, pa, pb, e)
  }

  /** A pair resolved against the types known at some moment between `lo` and `hi`. */
  lemma EqualityForAt(lo: set<Type>, ts: set<Type>, hi: set<Type>,
                      ta: PyTD.TypeRef, tb: PyTD.TypeRef, pa: Type, pb: Type, e: Equality)
    requires lo <= ts <= hi && PairResolves(ts, ta, tb, pa, pb, e)
    ensures EqualityFor(lo, hi, ta, tb, pa, pb, e)
  {
  }

  lemma EqualityForWiden(lo: set<Type>, hi: set<Type>, lo': set<Type>, hi': set<Type>,
                         ta: PyTD.TypeRef, tb: PyTD.TypeRef, pa: Type, pb: Type, e: Equality)
    requires EqualityFor(lo, hi, ta, tb, pa, pb, e) && lo' <= lo && hi <= hi'
    ensures EqualityFor(lo', hi', ta, tb, pa, pb, e)
  {
    var ts :| lo <= ts <= hi && PairResolves(ts, ta, tb, pa, pb, e);
    assert lo' <= ts <= hi';
  }

  // Signatures

  /** Position `i` of a signature: its i-th parameter type, or its return type at
      position `|params|`. */
  function RefAt(s: PyTD.Signature, i: nat): PyTD.TypeRef
    requires i <= |s.params|
  {
    if i < |s.params| then s.params[i].typ else s.returnType
  }

  /** The positions below `n` at which two signatures of the same length differ, in
      increasing order. */
  function DiffsBelow(a: PyTD.Signature, b: PyTD.Signature, n: nat): (r: seq<nat>)
    requires |a.params| == |b.params| && n <= |a.params| + 1
    ensures forall i | 0 <= i < |r| :: r[i] < n
    ensures forall i, j | 0 <= i < j < |r| :: r[i] < r[j]
    ensures forall k: nat :: k in r <==> k < n && RefAt(a, k) != RefAt(b, k)
  {
    if n == 0 then []
    else
      var init := DiffsBelow(a, b, n - 1);
      var r := init + (if RefAt(a, n - 1) != RefAt(b, n - 1) then [n - 1] else []);
      assert forall i | 0 <= i < |init| :: r[i] == init[i];
      r
  }

  /** The positions, parameters first and the return type last, that need an equality. */
  function Diffs(a: PyTD.Signature, b: PyTD.Signature): seq<nat>
    requires |a.params| == |b.params|
  {
    DiffsBelow(a, b, |a.params| + 1)
  }

  lemma IncreasingAt(d: seq<nat>, x: nat, y: nat)
    requires forall p, q | 0 <= p < q < |d| :: d[p] < d[q]
    requires x <= y < |d|
    ensures d[x] <= d[y]
  {
    if x < y {
      assert d[x] < d[y];
    }
  }

  lemma DiffAt(a: PyTD.Signature, b: PyTD.Signature, i: nat)
    requires |a.params| == |b.params| && i <= |a.params| && RefAt(a, i) != RefAt(b, i)
    ensures i in Diffs(a, b)
  {
  }

  /** The formula `_SignaturesEqual` returns: false for different arities, otherwise
      the conjunction of one equality per differing position, in position order. */
  ghost predicate SigFormula(lo: set<Type>, hi: set<Type>, a: PyTD.Signature, b: PyTD.Signature, pa: Type, pb: Type, f: Formula)
  {
    if |a.params| != |b.params| then f == Const(false)
    else
      var d := Diffs(a, b);
      && f.Conj? && |f.parts| == |d|
      && forall k | 0 <= k < |d| ::
           f.parts[k].Var? && EqualityFor(lo, hi, RefAt(a, d[k]), RefAt(b, d[k]), pa, pb, f.parts[k].e)
  }

  lemma SigFormulaWiden(lo: set<Type>, hi: set<Type>, lo': set<Type>, hi': set<Type>,
                        a: PyTD.Signature, b: PyTD.Signature, pa: Type, pb: Type, f: Formula)
    requires SigFormula(lo, hi, a, b, pa, pb, f) && lo' <= lo && hi <= hi'
    ensures SigFormula(lo', hi', a, b, pa, pb, f)
  {
    if |a.params| == |b.params| {
      var d := Diffs(a, b);
      forall k | 0 <= k < |d|
        ensures EqualityFor(lo', hi', RefAt(a, d[k]), RefAt(b, d[k]), pa, pb, f.parts[k].e)
      {
        EqualityForWiden(lo, hi, lo', hi', RefAt(a, d[k]), RefAt(b, d[k]), pa, pb, f.parts[k].e);
      }
    }
  }

  /** The loop of `_SignaturesEqual` before position `i`: the first `n` differing
      positions are all the differing positions below `i`. */
  predicate PositionsBelow(a: PyTD.Signature, b: PyTD.Signature, i: nat, n: nat)
  {
    && |a.params| == |b.params| && i <= |a.params| + 1
    && var d := Diffs(a, b);
    && n <= |d|
    && (n < |d| ==> d[n] >= i)
    && (forall k | 0 <= k < n :: d[k] < i)
  }

  /** One equality, with both sides known, for each of the first `|eqs|` differing
      positions. */
  ghost predicate EqualitiesFor(lo: set<Type>, hi: set<Type>, a: PyTD.Signature, b: PyTD.Signature, pa: Type, pb: Type,
                                eqs: seq<Formula>)
    requires |a.params| == |b.params| && |eqs| <= |Diffs(a, b)|
  {
    var d := Diffs(a, b);
    forall k | 0 <= k < |eqs| ::
      && eqs[k].Var? && EqualityFor(lo, hi, RefAt(a, d[k]), RefAt(b, d[k]), pa, pb, eqs[k].e)
      && eqs[k].e.left in hi && eqs[k].e.right in hi
  }

  ghost predicate Collected(lo: set<Type>, hi: set<Type>, a: PyTD.Signature, b: PyTD.Signature, pa: Type, pb: Type, i: nat, eqs: seq<Formula>)
  {
    PositionsBelow(a, b, i, |eqs|) && EqualitiesFor(lo, hi, a, b, pa, pb, eqs)
  }

  /** A position where the references agree adds nothing. */
  lemma CollectSame(lo: set<Type>, hi: set<Type>, a: PyTD.Signature, b: PyTD.Signature, pa: Type, pb: Type, i: nat, eqs: seq<Formula>)
    requires Collected(lo, hi, a, b, pa, pb, i, eqs) && i <= |a.params| && RefAt(a, i) == RefAt(b, i)
    ensures Collected(lo, hi, a, b, pa, pb, i + 1, eqs)
  {
    assert i !in Diffs(a, b);
  }

  /** The equalities collected so far stay collected while the known types grow. */
  lemma CollectedGrows(lo: set<Type>, hi: set<Type>, us: set<Type>, a: PyTD.Signature, b: PyTD.Signature, pa: Type, pb: Type,
                       i: nat, eqs: seq<Formula>)
    requires Collected(lo, hi, a, b, pa, pb, i, eqs) && hi <= us
    ensures Collected(lo, us, a, b, pa, pb, i, eqs)
  {
    var d := Diffs(a, b);
    forall k | 0 <= k < |eqs|
      ensures EqualityFor(lo, us, RefAt(a, d[k]), RefAt(b, d[k]), pa, pb, eqs[k].e)
    {
      EqualityForWiden(lo, hi, lo, us, RefAt(a, d[k]), RefAt(b, d[k]), pa, pb, eqs[k].e);
    }
  }

  /** A position where they differ adds its equality, resolved against the types
      known then, `hi`, which have grown to `us`. */
  lemma CollectDiff(lo: set<Type>, hi: set<Type>, us: set<Type>, a: PyTD.Signature, b: PyTD.Signature, pa: Type, pb: Type,
                    i: nat, eqs: seq<Formula>, e: Equality)
    requires Collected(lo, hi, a, b, pa, pb, i, eqs) && i <= |a.params| && RefAt(a, i) != RefAt(b, i)
    requires lo <= hi <= us && PairResolves(hi, RefAt(a, i), RefAt(b, i), pa, pb, e) && e.left in us && e.right in us
    ensures Collected(lo, us, a, b, pa, pb, i + 1, eqs + [Var(e)])
  {
    CollectedGrows(lo, hi, us, a, b, pa, pb, i, eqs);
    EqualityForAt(lo, hi, us, RefAt(a, i), RefAt(b, i), pa, pb, e);
    PositionStep(a, b, i, |eqs|);
    EqualitiesAppend(lo, us, a, b, pa, pb, i, eqs, e);
  }

  /** The next differing position is `i` itself. */
  lemma PositionStep(a: PyTD.Signature, b: PyTD.Signature, i: nat, n: nat)
    requires PositionsBelow(a, b, i, n) && i <= |a.params| && RefAt(a, i) != RefAt(b, i)
    ensures n < |Diffs(a, b)| && Diffs(a, b)[n] == i
    ensures PositionsBelow(a, b, i + 1, n + 1)
  {
    var d := Diffs(a, b);
    DiffAt(a, b, i);
    var j :| 0 <= j < |d| && d[j] == i;
    assert n <= j;
    IncreasingAt(d, n, j);
    if n + 1 < |d| {
      assert d[n] < d[n + 1];
    }
  }

  lemma EqualitiesAppend(lo: set<Type>, us: set<Type>, a: PyTD.Signature, b: PyTD.Signature, pa: Type, pb: Type,
                         i: nat, eqs: seq<Formula>, e: Equality)
    requires |a.params| == |b.params| && |eqs| < |Diffs(a, b)| && Diffs(a, b)[|eqs|] == i
    requires EqualitiesFor(lo, us, a, b, pa, pb, eqs)
    requires EqualityFor(lo, us, RefAt(a, i), RefAt(b, i), pa, pb, e) && e.left in us && e.right in us
    ensures EqualitiesFor(lo, us, a, b, pa, pb, eqs + [Var(e)])
  {
    var grown := eqs + [Var(e)];
    var d := Diffs(a, b);
    forall k | 0 <= k < |grown|
      ensures grown[k].Var? && EqualityFor(lo, us, RefAt(a, d[k]), RefAt(b, d[k]), pa, pb, grown[k].e)
      ensures grown[k].e.left in us && grown[k].e.right in us
    {
      if k < |eqs| {
        assert grown[k] == eqs[k];
      } else {
        assert grown[k] == Var(e) && d[k] == i;
      }
    }
  }

  /** After the last position the collected equalities are the formula. */
  lemma CollectDone(lo: set<Type>, hi: set<Type>, a: PyTD.Signature, b: PyTD.Signature, pa: Type, pb: Type, eqs: seq<Formula>)
    requires Collected(lo, hi, a, b, pa, pb, |a.params| + 1, eqs)
    ensures SigFormula(lo, hi, a, b, pa, pb, Conj(eqs)) && AllVarsIn(Conj(eqs), hi)
  {
  }

  lemma {:induction false} NoDiffsWithSelf(s: PyTD.Signature, n: nat)
    requires n <= |s.params| + 1
    ensures DiffsBelow(s, s, n) == []
  {
    if n > 0 {
      NoDiffsWithSelf(s, n - 1);
    }
  }

  /** Comparing a signature with itself needs no equality: the formula is the empty
      conjunction, true under every assignment. */
  lemma IdenticalSignaturesAgree(lo: set<Type>, hi: set<Type>, s: PyTD.Signature, p: Type, f: Formula, asg: Assignment)
    requires SigFormula(lo, hi, s, s, p, p, f)
    ensures f == Conj([]) && Eval(f, asg)
  {
    NoDiffsWithSelf(s, |s.params| + 1);
  }

  // Methods

  /** The formula `_FunctionsEqualOneWay` returns: a conjunction over the left
      method's signatures, each the disjunction over the right method's signatures of
      their signature formulas, in signature order. */
  ghost predicate OneWay(lo: set<Type>, hi: set<Type>, lf: PyTD.Function, rf: PyTD.Function, pa: Type, pb: Type, f: Formula)
  {
    && f.Conj? && |f.parts| == |lf.signatures|
    && forall i | 0 <= i < |lf.signatures| :: OneSignature(lo, hi, lf.signatures[i], rf, pa, pb, f.parts[i])
  }

  /** The disjunct list for one left signature. */
  ghost predicate OneSignature(lo: set<Type>, hi: set<Type>, ls: PyTD.Signature, rf: PyTD.Function, pa: Type, pb: Type, g: Formula)
  {
    && g.Disj? && |g.parts| == |rf.signatures|
    && forall j | 0 <= j < |rf.signatures| :: SigFormula(lo, hi, ls, rf.signatures[j], pa, pb, g.parts[j])
  }

  lemma OneSignatureWiden(lo: set<Type>, hi: set<Type>, lo': set<Type>, hi': set<Type>,
                          ls: PyTD.Signature, rf: PyTD.Function, pa: Type, pb: Type, g: Formula)
    requires OneSignature(lo, hi, ls, rf, pa, pb, g) && lo' <= lo && hi <= hi'
    ensures OneSignature(lo', hi', ls, rf, pa, pb, g)
  {
    forall j | 0 <= j < |rf.signatures| ensures SigFormula(lo', hi', ls, rf.signatures[j], pa, pb, g.parts[j]) {
      SigFormulaWiden(lo, hi, lo', hi', ls, rf.signatures[j], pa, pb, g.parts[j]);
    }
  }

  lemma OneWayWiden(lo: set<Type>, hi: set<Type>, lo': set<Type>, hi': set<Type>,
                    lf: PyTD.Function, rf: PyTD.Function, pa: Type, pb: Type, f: Formula)
    requires OneWay(lo, hi, lf, rf, pa, pb, f) && lo' <= lo && hi <= hi'
    ensures OneWay(lo', hi', lf, rf, pa, pb, f)
  {
    forall i | 0 <= i < |lf.signatures| ensures OneSignature(lo', hi', lf.signatures[i], rf, pa, pb, f.parts[i]) {
      OneSignatureWiden(lo, hi, lo', hi', lf.signatures[i], rf, pa, pb, f.parts[i]);
    }
  }

  /** A method without overloads asks for nothing: its formula is the empty
      conjunction. */
  lemma NoOverloadsNoRequirement(lo: set<Type>, hi: set<Type>, lf: PyTD.Function, rf: PyTD.Function, pa: Type, pb: Type,
                                 f: Formula, asg: Assignment)
    requires OneWay(lo, hi, lf, rf, pa, pb, f) && lf.signatures == []
    ensures Eval(f, asg)
  {
  }

  /** A left overload that no right overload can match in arity makes the whole
      formula false. */
  lemma UnmatchedArityFails(lo: set<Type>, hi: set<Type>, lf: PyTD.Function, rf: PyTD.Function, pa: Type, pb: Type,
                            f: Formula, i: nat, asg: Assignment)
    requires OneWay(lo, hi, lf, rf, pa, pb, f) && i < |lf.signatures|
    requires forall j | 0 <= j < |rf.signatures| :: |rf.signatures[j].params| != |lf.signatures[i].params|
    ensures !Eval(f, asg)
  {
    var g := f.parts[i];
    forall j | 0 <= j < |g.parts| ensures !Eval(g.parts[j], asg) {
      assert g.parts[j] == Const(false);
    }
    assert !Eval(g, asg);
  }

  // One pair of types

  /** What the scan over one pair reads of its two types: the types themselves (each
      is the other's path), their structures and their completeness. */
  datatype PairView = PairView(left: Type, right: Type, sl: Structure, sr: Structure, cl: bool, cr: bool)

  function ViewOf(left: Type, right: Type): PairView
  {
    PairView(left, right, StructureOf(left), StructureOf(right), Complete(left), Complete(right))
  }

  /** Both types have a method with this name. */
  predicate Shared(p: PairView, name: string)
  {
    name in p.sl && name in p.sr
  }

  /** A complete side lacks this name: the pair cannot be equal. */
  predicate Missing(p: PairView, name: string)
  {
    (name !in p.sl && p.cl) || (name !in p.sr && p.cr)
  }

  /** Where the scan over the sorted names stops: the first missing name, or the end. */
  function Cut(names: seq<string>, p: PairView): (c: nat)
    ensures c <= |names|
    ensures forall k | 0 <= k < c :: !Missing(p, names[k])
    ensures c < |names| ==> Missing(p, names[c])
  {
    if |names| == 0 then 0
    else if Missing(p, names[0]) then 0
    else 1 + Cut(names[1..], p)
  }

  /** `f` is a formula a shared name contributes: the check of the left method
      against the right one when the right side is complete, or the converse when the
      left side is. The path of each side is the other side. */
  ghost predicate PartFor(lo: set<Type>, hi: set<Type>, p: PairView, name: string, f: Formula)
  {
    && Shared(p, name)
    && ((p.cr && OneWay(lo, hi, p.sl[name], p.sr[name], p.right, p.left, f))
        || (p.cl && OneWay(lo, hi, p.sr[name], p.sl[name], p.left, p.right, f)))
  }

  /** Every formula a shared name must contribute is among `parts`. */
  ghost predicate Covered(lo: set<Type>, hi: set<Type>, p: PairView, name: string, parts: seq<Formula>)
  {
    Shared(p, name) ==>
      && (p.cr ==> exists f | f in parts :: OneWay(lo, hi, p.sl[name], p.sr[name], p.right, p.left, f))
      && (p.cl ==> exists f | f in parts :: OneWay(lo, hi, p.sr[name], p.sl[name], p.left, p.right, f))
  }

  /** Every part is a constant false or a formula of one of the first `n` names. */
  ghost predicate PartsFrom(lo: set<Type>, hi: set<Type>, p: PairView, names: seq<string>, n: nat, parts: seq<Formula>)
    requires n <= |names|
  {
    forall f | f in parts :: f == Const(false) || exists k | 0 <= k < n :: PartFor(lo, hi, p, names[k], f)
  }

  /** Each of the first `n` names has its formulas among the parts. */
  ghost predicate CoveredUpTo(lo: set<Type>, hi: set<Type>, p: PairView, names: seq<string>, n: nat, parts: seq<Formula>)
    requires n <= |names|
  {
    forall k | 0 <= k < n :: Covered(lo, hi, p, names[k], parts)
  }

  /** The conjuncts of the requirement for one pair: one formula per shared name and
      direction up to the first missing name, and a constant false iff a name is
      missing. */
  ghost predicate Requirement(lo: set<Type>, hi: set<Type>, p: PairView, names: seq<string>, parts: seq<Formula>)
  {
    var c := Cut(names, p);
    && (Const(false) in parts <==> c < |names|)
    && PartsFrom(lo, hi, p, names, c, parts)
    && CoveredUpTo(lo, hi, p, names, c, parts)
  }

  lemma PartForWiden(lo: set<Type>, hi: set<Type>, lo': set<Type>, hi': set<Type>, p: PairView, name: string, f: Formula)
    requires PartFor(lo, hi, p, name, f) && lo' <= lo && hi <= hi'
    ensures PartFor(lo', hi', p, name, f)
  {
    if p.cr && OneWay(lo, hi, p.sl[name], p.sr[name], p.right, p.left, f) {
      OneWayWiden(lo, hi, lo', hi', p.sl[name], p.sr[name], p.right, p.left, f);
    } else {
      OneWayWiden(lo, hi, lo', hi', p.sr[name], p.sl[name], p.left, p.right, f);
    }
  }

  /** Growing the known types and adding parts of the name at `m - 1` (or a
      constant false) keeps every part accounted for. */
  lemma PartsFromExtend(lo: set<Type>, hi: set<Type>, us: set<Type>, p: PairView, names: seq<string>,
                        n: nat, m: nat, parts: seq<Formula>, fs: seq<Formula>, grown: seq<Formula>)
    requires n <= m <= |names| && hi <= us
    requires PartsFrom(lo, hi, p, names, n, parts)
    requires forall f | f in fs :: f == Const(false) || (0 < m && PartFor(lo, us, p, names[m - 1], f))
    requires forall f | f in grown :: f in parts || f in fs
    ensures PartsFrom(lo, us, p, names, m, grown)
  {
    forall f | f in grown && f != Const(false)
      ensures exists k | 0 <= k < m :: PartFor(lo, us, p, names[k], f)
    {
      if f in fs {
        assert PartFor(lo, us, p, names[m - 1], f);
      } else {
        var k :| 0 <= k < n && PartFor(lo, hi, p, names[k], f);
        PartForWiden(lo, hi, lo, us, p, names[k], f);
      }
    }
  }

  /** Widening the span of known types and growing the parts keeps the covered names
      covered. */
  lemma CoveredExtend(lo: set<Type>, hi: set<Type>, lo': set<Type>, us: set<Type>, p: PairView, name: string,
                      parts: seq<Formula>, grown: seq<Formula>)
    requires lo' <= lo && hi <= us && Covered(lo, hi, p, name, parts)
    requires forall f | f in parts :: f in grown
    ensures Covered(lo', us, p, name, grown)
  {
    if Shared(p, name) {
      if p.cr {
        var f :| f in parts && OneWay(lo, hi, p.sl[name], p.sr[name], p.right, p.left, f);
        OneWayWiden(lo, hi, lo', us, p.sl[name], p.sr[name], p.right, p.left, f);
      }
      if p.cl {
        var f :| f in parts && OneWay(lo, hi, p.sr[name], p.sl[name], p.left, p.right, f);
        OneWayWiden(lo, hi, lo', us, p.sr[name], p.sl[name], p.left, p.right, f);
      }
    }
  }

  lemma CoveredUpToExtend(lo: set<Type>, hi: set<Type>, us: set<Type>, p: PairView, names: seq<string>,
                          n: nat, parts: seq<Formula>, grown: seq<Formula>)
    requires n <= |names| && hi <= us && CoveredUpTo(lo, hi, p, names, n, parts)
    requires forall f | f in parts :: f in grown
    ensures CoveredUpTo(lo, us, p, names, n, grown)
  {
    forall k | 0 <= k < n ensures Covered(lo, us, p, names[k], grown) {
      CoveredExtend(lo, hi, lo, us, p, names[k], parts, grown);
    }
  }

  /** What the scan over the names has established after `i` names: it has not
      stopped, each of these names has its formulas, and nothing else is there. */
  ghost predicate ScanInvariant(lo: set<Type>, hi: set<Type>, p: PairView, names: seq<string>, i: nat, conj: seq<Formula>)
  {
    && i <= |names| && i <= Cut(names, p)
    && Const(false) !in conj && Distinct(conj)
    && PartsFrom(lo, hi, p, names, i, conj)
    && CoveredUpTo(lo, hi, p, names, i, conj)
  }

  /** The formulas of a shared name, one per direction whose target side is complete
      (the left method against the right one first), are the parts that name owes. */
  lemma SharedNameParts(lo: set<Type>, hi: set<Type>, p: PairView, name: string, fs: seq<Formula>)
    requires Shared(p, name)
    requires |fs| == (if p.cr then 1 else 0) + (if p.cl then 1 else 0)
    requires p.cr ==> OneWay(lo, hi, p.sl[name], p.sr[name], p.right, p.left, fs[0])
    requires p.cl ==> OneWay(lo, hi, p.sr[name], p.sl[name], p.left, p.right, fs[|fs| - 1])
    ensures Covered(lo, hi, p, name, fs) && Const(false) !in fs
    ensures forall f | f in fs :: PartFor(lo, hi, p, name, f)
  {
    forall f | f in fs ensures PartFor(lo, hi, p, name, f) && f != Const(false) {
      if p.cr && p.cl {
        assert f == fs[0] || f == fs[1];
      }
    }
    if p.cr {
      assert fs[0] in fs;
    }
    if p.cl {
      assert fs[|fs| - 1] in fs;
    }
  }

  /** The formulas of a shared name built while the known types grew from `mid` to
      `us` were built between `lo` and `us`, for any `lo` below `mid`. */
  lemma SharedNameWiden(lo: set<Type>, mid: set<Type>, us: set<Type>, p: PairView, name: string, fs: seq<Formula>)
    requires lo <= mid && Covered(mid, us, p, name, fs)
    requires forall f | f in fs :: PartFor(mid, us, p, name, f)
    ensures Covered(lo, us, p, name, fs)
    ensures forall f | f in fs :: PartFor(lo, us, p, name, f)
  {
    forall f | f in fs ensures PartFor(lo, us, p, name, f) {
      PartForWiden(mid, us, lo, us, p, name, f);
    }
    CoveredExtend(mid, us, lo, us, p, name, fs, fs);
  }

  /** The step at a shared name: with the known types grown, its formulas added. */
  lemma SharedStep(lo: set<Type>, hi: set<Type>, us: set<Type>, p: PairView, names: seq<string>, i: nat,
                   conj: seq<Formula>, fs: seq<Formula>)
    requires i < |names| && hi <= us && Shared(p, names[i])
    requires ScanInvariant(lo, hi, p, names, i, conj)
    requires Covered(lo, us, p, names[i], fs) && Const(false) !in fs
    requires forall f | f in fs :: PartFor(lo, us, p, names[i], f)
    ensures ScanInvariant(lo, us, p, names, i + 1, AddAll(conj, fs))
  {
    var grown := AddAll(conj, fs);
    assert PartsFrom(lo, us, p, names, i + 1, grown) by {
      PartsFromExtend(lo, hi, us, p, names, i, i + 1, conj, fs, grown);
    }
    assert CoveredUpTo(lo, us, p, names, i + 1, grown) by {
      CoveredUpToExtend(lo, hi, us, p, names, i, conj, grown);
      CoveredExtend(lo, us, lo, us, p, names[i], fs, grown);
    }
    assert !Missing(p, names[i]);
  }

  /** A name only one side has, and that no complete side lacks, adds nothing. */
  lemma SkipStep(lo: set<Type>, hi: set<Type>, p: PairView, names: seq<string>, i: nat, conj: seq<Formula>)
    requires i < |names| && !Shared(p, names[i]) && !Missing(p, names[i])
    requires ScanInvariant(lo, hi, p, names, i, conj)
    ensures ScanInvariant(lo, hi, p, names, i + 1, conj)
  {
    PartsFromExtend(lo, hi, hi, p, names, i, i + 1, conj, [], conj);
  }

  /** The end of the names without a missing one: the requirement is complete. */
  lemma ScanEnd(lo: set<Type>, hi: set<Type>, p: PairView, names: seq<string>, conj: seq<Formula>)
    requires ScanInvariant(lo, hi, p, names, |names|, conj)
    ensures Requirement(lo, hi, p, names, conj)
  {
  }

  /** The stop at a missing name: the constant false joins, and the requirement is
      complete. */
  lemma MissingStop(lo: set<Type>, hi: set<Type>, p: PairView, names: seq<string>, i: nat, conj: seq<Formula>)
    requires i < |names| && Missing(p, names[i])
    requires ScanInvariant(lo, hi, p, names, i, conj)
    ensures Requirement(lo, hi, p, names, conj + [Const(false)]) && Distinct(conj + [Const(false)])
  {
    var grown := conj + [Const(false)];
    PartsFromExtend(lo, hi, hi, p, names, i, i, conj, [Const(false)], grown);
    CoveredUpToExtend(lo, hi, hi, p, names, i, conj, grown);
  }

  /** `conj.update(fs)` on a set kept as a list: the new formulas appended once each. */
  function AddAll(conj: seq<Formula>, fs: seq<Formula>): (r: seq<Formula>)
    decreases |fs|
    ensures forall f :: f in r <==> f in conj || f in fs
    ensures Distinct(conj) ==> Distinct(r)
  {
    if fs == [] then conj
    else AddAll(if fs[0] in conj then conj else conj + [fs[0]], fs[1..])
  }

  /** A name one complete side lacks and the other has makes the requirement false,
      whatever the assignment. */
  lemma MissingNameFails(lo: set<Type>, hi: set<Type>, p: PairView, names: seq<string>, parts: seq<Formula>, asg: Assignment)
    requires Requirement(lo, hi, p, names, parts)
    requires exists k | 0 <= k < |names| :: Missing(p, names[k])
    ensures !Eval(Conj(parts), asg)
  {
    var k :| 0 <= k < |names| && Missing(p, names[k]);
    assert Cut(names, p) <= k;
    ConjWithFalse(parts, asg);
  }

  /** An incomplete type that shows no method asks nothing of its partner, on either
      side of the pair: no name is missing, none is shared, and the requirement is the
      empty conjunction. */
  lemma NothingKnownNothingRequired(lo: set<Type>, hi: set<Type>, p: PairView, names: seq<string>, parts: seq<Formula>)
    requires (!p.cl && p.sl == map[]) || (!p.cr && p.sr == map[])
    requires Elems(names) == p.sl.Keys + p.sr.Keys
    requires Requirement(lo, hi, p, names, parts)
    ensures parts == []
  {
    forall k | 0 <= k < |names| ensures !Missing(p, names[k]) {
      assert names[k] in Elems(names);
    }
    assert forall f | f in parts :: false;
    NoElemsEmpty(parts);
  }

  // The universe of types

  /** Converting `td` with `path` yields, when it succeeds, a type of `U`. */
  ghost predicate Within(u: set<Type>, td: PyTD.TypeRef, path: Type)
  {
    var r := FromPyTD(td, true, Some(path));
    r.Ok? ==> r.value in u
  }

  ghost predicate SigWithin(u: set<Type>, s: PyTD.Signature, path: Type)
  {
    forall i: nat | i <= |s.params| :: Within(u, RefAt(s, i), path)
  }

  ghost predicate FuncWithin(u: set<Type>, f: PyTD.Function, path: Type)
  {
    forall i | 0 <= i < |f.signatures| :: SigWithin(u, f.signatures[i], path)
  }

  /** `U` holds every type the conversions of a shared method of two of its types can
      produce, each read with the other type as path: the fixpoint never leaves it. */
  ghost predicate Closed(u: set<Type>)
  {
    forall t, p, name | t in u && p in u && name in StructureOf(t) && name in StructureOf(p) ::
      FuncWithin(u, StructureOf(t)[name], p)
  }

  /** Resolution inside `U` cannot fail on a name or a key: no two of its types share
      a key, and no two of its classes a name. */
  ghost predicate Sound(u: set<Type>)
  {
    && KeysInjective(u)
    && forall s, t | s in u && t in u && s.ClassT? && t.ClassT? && s.ct.cls.name == t.ct.cls.name :: s == t
  }

  /** Every reference of the signature converts, read with `path`. */
  ghost predicate SigConverts(s: PyTD.Signature, path: Type)
  {
    forall i: nat | i <= |s.params| :: FromPyTD(RefAt(s, i), true, Some(path)).Ok?
  }

  ghost predicate FuncConverts(f: PyTD.Function, path: Type)
  {
    forall i | 0 <= i < |f.signatures| :: SigConverts(f.signatures[i], path)
  }

  /** Every reference of a shared method of two types of `U` converts, read with the
      other type as path. */
  ghost predicate Convertible(u: set<Type>)
  {
    forall t, p, name | t in u && p in u && name in StructureOf(t) && name in StructureOf(p) ::
      FuncConverts(StructureOf(t)[name], p)
  }

  lemma AtMostOne<T>(s: set<T>)
    requires forall x, y | x in s && y in s :: x == y
    ensures |s| <= 1
  {
    if s != {} {
      var x :| x in s;
      assert s == {x};
    }
  }

  /** Inside a sound universe a reference that converts also resolves, to a type of
      the universe. */
  lemma ResolveSound(ts: set<Type>, u: set<Type>, td: PyTD.TypeRef, path: Type)
    requires ts <= u && Sound(u) && Within(u, td, path) && FromPyTD(td, true, Some(path)).Ok?
    ensures Resolve(ts, td, path).Ok? && Resolve(ts, td, path).value in u
  {
    if td.ClassRef? {
      AtMostOne(Matches(ts, td.name));
    }
  }

  // The records of the whole problem

  /** `c` is the defining record of `v`: its equivalence or its implication. */
  predicate Defines(c: Constraint, v: Equality)
  {
    (c.Equals? && c.v == v) || (c.Implies? && c.ante == Var(v))
  }

  /** Some record of `log` defines `v`. Stated by recursion on the log so that a
      quantifier over many variables does not unfold every record at once. */
  ghost predicate DefinedIn(log: seq<Constraint>, v: Equality)
    decreases |log|
  {
    log != [] && (Defines(log[|log| - 1], v) || DefinedIn(log[..|log| - 1], v))
  }

  lemma {:induction false} DefinedInMeans(log: seq<Constraint>, v: Equality)
    ensures DefinedIn(log, v) <==> exists i | 0 <= i < |log| :: Defines(log[i], v)
    decreases |log|
  {
    if log != [] {
      var front := log[..|log| - 1];
      DefinedInMeans(front, v);
      if exists i | 0 <= i < |log| :: Defines(log[i], v) {
        var i :| 0 <= i < |log| && Defines(log[i], v);
        if i < |front| {
          assert front[i] == log[i];
        }
      }
      if exists i | 0 <= i < |front| :: Defines(front[i], v) {
        var i :| 0 <= i < |front| && Defines(front[i], v);
        assert log[i] == front[i];
      }
    }
  }

  lemma {:induction false} DefinedInGrows(log: seq<Constraint>, longer: seq<Constraint>, v: Equality)
    requires DefinedIn(log, v) && log <= longer
    ensures DefinedIn(longer, v)
    decreases |longer|
  {
    if longer != log {
      var front := longer[..|longer| - 1];
      assert log <= front;
      DefinedInGrows(log, front, v);
    }
  }

  /** The records for one compatible pair: an equivalence when both sides are
      complete, otherwise an implication and a hint that the pair is preferred. */
  function PairRecords(v: Equality, parts: seq<Formula>): (r: seq<Constraint>)
    ensures forall asg | Satisfies(r, asg) && asg(v) :: Eval(Conj(parts), asg)
    ensures Complete(v.left) && Complete(v.right) ==>
      forall asg | Satisfies(r, asg) && Eval(Conj(parts), asg) :: asg(v)
    ensures !(Complete(v.left) && Complete(v.right)) ==> Hint(v, true) in r
    ensures !(Complete(v.left) && Complete(v.right)) ==> forall asg: Assignment | !asg(v) :: Satisfies(r, asg)
  {
    if Complete(v.left) && Complete(v.right) then
      SatisfiesOne(Equals(v, Conj(parts)));
      [Equals(v, Conj(parts))]
    else
      SatisfiesTwo(Implies(Var(v), Conj(parts)), Hint(v, true));
      [Implies(Var(v), Conj(parts)), Hint(v, true)]
  }

  lemma PairRecordsDefine(log: seq<Constraint>, v: Equality, parts: seq<Formula>)
    ensures DefinedIn(log + PairRecords(v, parts), v)
  {
    var full := log + PairRecords(v, parts);
    if |PairRecords(v, parts)| == 2 {
      assert full[..|full| - 1] == log + [Implies(Var(v), Conj(parts))];
    }
  }

  /** The records of a pair pair its two sides and the types of its requirement; the
      record of an incompatible pair pairs only its sides. */
  lemma PairRecordsSides(v: Equality, parts: seq<Formula>)
    ensures LogSides(PairRecords(v, parts)) == {v.left, v.right} + Sides(Conj(parts))
    ensures LogSides([Equals(v, Const(false))]) == {v.left, v.right}
  {
    var one := [Equals(v, Const(false))];
    assert one[..0] == [];
    if Complete(v.left) && Complete(v.right) {
      var recs := [Equals(v, Conj(parts))];
      assert recs[..0] == [];
    } else {
      var recs := [Implies(Var(v), Conj(parts)), Hint(v, true)];
      var first := [Implies(Var(v), Conj(parts))];
      assert first[..0] == [];
      assert LogSides(first) == Sides(Var(v)) + Sides(Conj(parts));
      assert recs[..1] == first;
      assert LogSides(recs) == LogSides(first) + ConstraintSides(Hint(v, true));
    }
  }

  /** `recs` are the records `_GenerateConstraints` writes for `v` while the known
      types grow from `lo` to `hi`: false for a nominally incompatible pair, otherwise
      the pair's records over the requirement scanned from the names of both
      structures in order. */
  ghost predicate PairConstrained(lo: set<Type>, hi: set<Type>, v: Equality, recs: seq<Constraint>)
  {
    if !NominallyCompatible(v.left, v.right) then recs == [Equals(v, Const(false))]
    else exists names: seq<string>, parts: seq<Formula> ::
      && Sorted(names, Strings.Less)
      && Elems(names) == StructureOf(v.left).Keys + StructureOf(v.right).Keys
      && Requirement(lo, hi, ViewOf(v.left, v.right), names, parts)
      && Distinct(parts)
      && recs == PairRecords(v, parts)
  }

  lemma PairConstrainedDefines(log: seq<Constraint>, lo: set<Type>, hi: set<Type>, v: Equality, recs: seq<Constraint>)
    requires PairConstrained(lo, hi, v, recs)
    ensures DefinedIn(log + recs, v)
  {
    if NominallyCompatible(v.left, v.right) {
      var names: seq<string>, parts :| Requirement(lo, hi, ViewOf(v.left, v.right), names, parts) && recs == PairRecords(v, parts);
      PairRecordsDefine(log, v, parts);
    } else {
      assert (log + recs)[|log + recs| - 1] == Equals(v, Const(false));
    }
  }

  /** `a = b and b = c implies a = c`, recorded for an incomplete middle type `b`. */
  function TransRecord(a: Type, b: Type, c: Type): (r: Constraint)
    ensures forall asg | Holds(r, asg) && asg(MakeEquality(a, b)) && asg(MakeEquality(b, c)) :: asg(MakeEquality(a, c))
    ensures forall asg: Assignment | !asg(MakeEquality(a, b)) || !asg(MakeEquality(b, c)) :: Holds(r, asg)
  {
    ConjOfTwo(Var(MakeEquality(a, b)), Var(MakeEquality(b, c)));
    Implies(Conj([Var(MakeEquality(a, b)), Var(MakeEquality(b, c))]), Var(MakeEquality(a, c)))
  }

  /** The transitivity record for `a`, `b`, `c` is in the log (stated by recursion on
      the log, so that each use unfolds one record at a time). */
  ghost predicate TransIn(log: seq<Constraint>, a: Type, b: Type, c: Type)
    decreases |log|
  {
    log != [] && (log[|log| - 1] == TransRecord(a, b, c) || TransIn(log[..|log| - 1], a, b, c))
  }

  lemma {:induction false} TransInMeans(log: seq<Constraint>, a: Type, b: Type, c: Type)
    ensures TransIn(log, a, b, c) <==> TransRecord(a, b, c) in log
    decreases |log|
  {
    if log != [] {
      var front := log[..|log| - 1];
      TransInMeans(front, a, b, c);
      LastOrFront(log, TransRecord(a, b, c));
    }
  }

  lemma {:induction false} TransInGrows(log: seq<Constraint>, longer: seq<Constraint>, a: Type, b: Type, c: Type)
    requires TransIn(log, a, b, c) && log <= longer
    ensures TransIn(longer, a, b, c)
    decreases |longer|
  {
    if longer != log {
      var front := longer[..|longer| - 1];
      assert log <= front;
      TransInGrows(log, front, a, b, c);
    }
  }

  /** The pairs of `ty` with a complete partner: the candidates it may be matched to. */
  function Candidates(vs: set<Equality>, ty: Type): set<Equality>
  {
    set v | v in vs && (v.left == ty || v.right == ty) && Complete(Other(v, ty))
  }

  /** `c` is the cardinality record for the incomplete class `ty`: at least one of
      its candidates, listed in order, holds. */
  predicate IsCardinality(c: Constraint, ty: Type, cands: set<Equality>)
  {
    && c.BetweenNM? && c.tag == ty && c.min == 1 && c.max == None
    && Sorted(c.vs, EqLess) && Elems(c.vs) == cands
  }

  /** Some record of `log` is the cardinality record for `ty`. */
  ghost predicate CardinalityFor(log: seq<Constraint>, ty: Type, cands: set<Equality>)
    decreases |log|
  {
    log != [] && (IsCardinality(log[|log| - 1], ty, cands) || CardinalityFor(log[..|log| - 1], ty, cands))
  }

  lemma {:induction false} CardinalityForMeans(log: seq<Constraint>, ty: Type, cands: set<Equality>)
    ensures CardinalityFor(log, ty, cands) <==> exists i | 0 <= i < |log| :: IsCardinality(log[i], ty, cands)
    decreases |log|
  {
    if log != [] {
      var front := log[..|log| - 1];
      CardinalityForMeans(front, ty, cands);
      if exists i | 0 <= i < |log| :: IsCardinality(log[i], ty, cands) {
        var i :| 0 <= i < |log| && IsCardinality(log[i], ty, cands);
        if i < |front| {
          assert front[i] == log[i];
        }
      }
      if exists i | 0 <= i < |front| :: IsCardinality(front[i], ty, cands) {
        var i :| 0 <= i < |front| && IsCardinality(front[i], ty, cands);
        assert log[i] == front[i];
      }
    }
  }

  lemma {:induction false} CardinalityForGrows(log: seq<Constraint>, longer: seq<Constraint>, ty: Type, cands: set<Equality>)
    requires CardinalityFor(log, ty, cands) && log <= longer
    ensures CardinalityFor(longer, ty, cands)
    decreases |longer|
  {
    if longer != log {
      var front := longer[..|longer| - 1];
      assert log <= front;
      CardinalityForGrows(log, front, ty, cands);
    }
  }

  // What the records guarantee of every satisfying assignment

  /** An incompatible pair is recorded as false, so no solution equates it. */
  lemma ForcedFalse(log: seq<Constraint>, v: Equality, asg: Assignment)
    requires Equals(v, Const(false)) in log && Satisfies(log, asg)
    ensures !asg(v)
  {
    var i :| 0 <= i < |log| && log[i] == Equals(v, Const(false));
    assert Holds(log[i], asg);
  }

  /** A pair whose requirement fails is false in every solution, whichever records
      it got. */
  lemma FailedRequirementRefutes(log: seq<Constraint>, v: Equality, parts: seq<Formula>, asg: Assignment)
    requires forall i | 0 <= i < |PairRecords(v, parts)| :: PairRecords(v, parts)[i] in log
    requires Satisfies(log, asg) && !Eval(Conj(parts), asg)
    ensures !asg(v)
  {
    var rec := PairRecords(v, parts)[0];
    assert rec in log;
    var i :| 0 <= i < |log| && log[i] == rec;
    assert Holds(log[i], asg);
  }

  /** Every incomplete class gets at least one complete partner in every solution. */
  lemma CardinalityGuarantee(log: seq<Constraint>, ty: Type, cands: set<Equality>, asg: Assignment)
    requires CardinalityFor(log, ty, cands) && Satisfies(log, asg)
    ensures exists v | v in cands :: asg(v)
  {
    CardinalityForMeans(log, ty, cands);
    var i :| 0 <= i < |log| && IsCardinality(log[i], ty, cands);
    assert Holds(log[i], asg);
    SomeTrue(log[i].vs, asg);
    var j :| 0 <= j < |log[i].vs| && asg(log[i].vs[j]);
    assert log[i].vs[j] in Elems(log[i].vs);
  }

  lemma ImplicationHolds(log: seq<Constraint>, ante: Formula, cons: Formula, asg: Assignment)
    requires Implies(ante, cons) in log && Satisfies(log, asg) && Eval(ante, asg)
    ensures Eval(cons, asg)
  {
    var i :| 0 <= i < |log| && log[i] == Implies(ante, cons);
    assert Holds(log[i], asg);
  }

  /** Equality through an incomplete middle type is transitive in every solution. */
  lemma TransitivityGuarantee(log: seq<Constraint>, a: Type, b: Type, c: Type, asg: Assignment)
    requires TransRecord(a, b, c) in log && Satisfies(log, asg)
    requires asg(MakeEquality(a, b)) && asg(MakeEquality(b, c))
    ensures asg(MakeEquality(a, c))
  {
    var ante := Conj([Var(MakeEquality(a, b)), Var(MakeEquality(b, c))]);
    assert Eval(ante, asg) by {
      assert Eval(ante.parts[0], asg) && Eval(ante.parts[1], asg);
    }
    ImplicationHolds(log, ante, Var(MakeEquality(a, c)), asg);
  }

  /** What the records of one pair guarantee: a pair that a satisfying assignment
      makes equal is nominally compatible, and its requirement holds. */
  lemma ConstrainedPairSound(log: seq<Constraint>, lo: set<Type>, hi: set<Type>, v: Equality, recs: seq<Constraint>,
                             asg: Assignment)
    requires PairConstrained(lo, hi, v, recs) && (forall c | c in recs :: c in log)
    requires Satisfies(log, asg) && asg(v)
    ensures NominallyCompatible(v.left, v.right)
    ensures exists names: seq<string>, parts: seq<Formula> ::
      && Elems(names) == StructureOf(v.left).Keys + StructureOf(v.right).Keys
      && Requirement(lo, hi, ViewOf(v.left, v.right), names, parts)
      && Eval(Conj(parts), asg)
  {
    if !NominallyCompatible(v.left, v.right) {
      assert recs[0] in recs;
      ForcedFalse(log, v, asg);
    } else {
      var names, parts :| Elems(names) == StructureOf(v.left).Keys + StructureOf(v.right).Keys
        && Requirement(lo, hi, ViewOf(v.left, v.right), names, parts) && recs == PairRecords(v, parts);
      if !Eval(Conj(parts), asg) {
        forall i | 0 <= i < |recs| ensures recs[i] in log {
          assert recs[i] in recs;
        }
        FailedRequirementRefutes(log, v, parts, asg);
      }
    }
  }
}
