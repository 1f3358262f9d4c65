/** The equality constraint: an unordered pair of types, the solver's variable. */
module Equalities {
  import opened Sorting
  import Strings
  import opened Types

  /** A pair stored with its sides in the type order (see MakeEquality). */
  datatype Equality = Equality(left: Type, right: Type)

  /** `Equality(a, b)`: the two sides sorted, so that `left` comes first in the type
      order (see MakeEqualityOrdered). */
  function MakeEquality(a: Type, b: Type): (e: Equality)
    ensures {e.left, e.right} == {a, b}
  {
    if TypeLess(b, a) then Equality(b, a) else Equality(a, b)
  }

  /** When the keys tell the sides apart, `left` comes strictly first. */
  lemma MakeEqualityOrdered(a: Type, b: Type)
    requires Key(a) != Key(b)
    ensures TypeLess(MakeEquality(a, b).left, MakeEquality(a, b).right)
  {
    Strings.LessConnected(Key(a), Key(b));
  }

  /** `Equality(a, b) == Equality(b, a)` for every pair the source can compare. */
  lemma MakeEqualitySymmetric(a: Type, b: Type)
    requires Key(a) != Key(b) || a == b
    ensures MakeEquality(a, b) == MakeEquality(b, a)
  {
    if a != b {
      Strings.LessConnected(Key(a), Key(b));
      if TypeLess(a, b) {
        Strings.LessAsymmetric(Key(b), Key(a));
      } else {
        Strings.LessAsymmetric(Key(a), Key(b));
      }
    }
  }

  /** `Other`: the side that is not `v`. */
  function Other(e: Equality, v: Type): (w: Type)
    ensures v == e.left || v == e.right ==> {v, w} == {e.left, e.right}
  {
    if e.right == v then e.left else e.right
  }

  /** The order `sorted` uses on equalities: the named tuples compare side by side,
      left first. */
  predicate EqLess(x: Equality, y: Equality)
  {
    TypeLess(x.left, y.left) || (x.left == y.left && TypeLess(x.right, y.right))
  }

  predicate SidesIn(vs: set<Equality>, ts: set<Type>)
  {
    forall v | v in vs :: v.left in ts && v.right in ts
  }

  lemma EqLessStrictTotal(vs: set<Equality>, ts: set<Type>)
    requires KeysInjective(ts) && SidesIn(vs, ts)
    ensures StrictTotalOn(vs, EqLess)
  {
    TypeLessStrictTotal(ts);
    forall x | x in vs ensures !EqLess(x, x) {
    }
    forall x, y, z | x in vs && y in vs && z in vs && EqLess(x, y) && EqLess(y, z)
      ensures EqLess(x, z)
    {
    }
    forall x, y | x in vs && y in vs && x != y ensures EqLess(x, y) || EqLess(y, x) {
      if x.left == y.left {
        assert x.right != y.right;
      }
    }
  }

  /** `set(Equality(*p) for p in itertools.combinations(ts, 2))`: every pair of two
      different types. */
  function Pairs(ts: set<Type>): set<Equality>
  {
    set a, b | a in ts && b in ts && a != b :: MakeEquality(a, b)
  }

  /** Over types with distinct keys, the pairs are exactly the equalities whose two
      sides are in the set and strictly ordered. */
  lemma PairsMembers(ts: set<Type>, v: Equality)
    requires KeysInjective(ts)
    ensures v in Pairs(ts) <==> v.left in ts && v.right in ts && TypeLess(v.left, v.right)
  {
    if v.left in ts && v.right in ts && TypeLess(v.left, v.right) {
      Strings.LessIrreflexive(Key(v.left));
      Strings.LessAsymmetric(Key(v.right), Key(v.left));
      assert MakeEquality(v.left, v.right) == v;
    }
    if v in Pairs(ts) {
      var a, b :| a in ts && b in ts && a != b && MakeEquality(a, b) == v;
      assert Key(a) != Key(b);
      MakeEqualityOrdered(a, b);
    }
  }

  lemma PairsMonotone(ts: set<Type>, us: set<Type>)
    requires ts <= us
    ensures Pairs(ts) <= Pairs(us)
  {
    forall v | v in Pairs(ts) ensures v in Pairs(us) {
      var a, b :| a in ts && b in ts && a != b && MakeEquality(a, b) == v;
      assert a in us && b in us;
    }
  }

  lemma PairsSides(ts: set<Type>)
    ensures SidesIn(Pairs(ts), ts)
  {
    forall v | v in Pairs(ts) ensures v.left in ts && v.right in ts {
      var a, b :| a in ts && b in ts && a != b && MakeEquality(a, b) == v;
    }
  }
}
