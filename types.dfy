/** The constraint types the encoder matches: a class (complete or not) and a union of
    classes. Their order, their structure, nominal compatibility, and the conversions
    from and to pytd type references. */
module Types {
  import opened Wrappers
  import opened Sorting
  import Strings
  import PyTD
  import opened Structures

  /** A class, and whether its method set is authoritative. */
  datatype ClassType = ClassType(cls: PyTD.Class, complete: bool)

  /** A union keeps its members as a set; the model lists them once each, in the type
      order (see Canonical), so that equal sets give equal values. */
  datatype Type = ClassT(ct: ClassType) | UnionT(members: seq<ClassType>)

  /** The ways the source fails, each fatal to the session. */
  datatype Error =
    | Unsupported(td: PyTD.TypeRef)  // FromPyTD on a node kind it cannot convert
    | EmptyUnion                     // a union with no members
    | NotAClass                      // a union member that is not a class
    | KeyClash(key: string)          // two different types with the same string form
    | Ambiguous(name: string)        // several known classes answer to one name
    | NoClassAttribute               // Solve reading `cls` of a union

  /** `ClassType.__str__`: the class name, followed by `#` when incomplete. */
  function ClassKey(c: ClassType): string
  {
    c.cls.name + (if c.complete then "" else "#")
  }

  /** Python's rendering of a tuple of strings. */
  function TupleText(items: seq<string>): string
  {
    "(" + (if |items| == 1 then items[0] + "," else Join(items)) + ")"
  }

  function Join(items: seq<string>): string
  {
    if |items| == 0 then ""
    else if |items| == 1 then items[0]
    else items[0] + ", " + Join(items[1..])
  }

  /** `__str__`, the key the order is derived from. */
  function Key(t: Type): (r: string)
  {
    match t
    case ClassT(c) => ClassKey(c)
    case UnionT(ms) => "U" + TupleText(seq(|ms|, i requires 0 <= i < |ms| => ClassKey(ms[i])))
  }

  /** What a key looks like: a complete class is its name, an incomplete one its
      name followed by `#`, a union the letter `U` followed by its members' keys. */
  lemma KeyForm(t: Type)
    ensures t.ClassT? && t.ct.complete ==> Key(t) == t.ct.cls.name
    ensures t.ClassT? && !t.ct.complete ==>
      |Key(t)| > 0 && Key(t)[|Key(t)| - 1] == '#' && Key(t)[..|Key(t)| - 1] == t.ct.cls.name
    ensures t.UnionT? ==> |Key(t)| > 0 && Key(t)[0] == 'U'
  {
  }

  /** `a < b` as `functools.total_ordering` derives it from `__gt__`, which is
      `str(self) < str(other)`: the types are sorted DESCENDING by key. */
  predicate TypeLess(a: Type, b: Type)
  {
    Strings.Less(Key(b), Key(a))
  }

  /** The order is strict: two types it ranks have different keys. */
  lemma TypeLessStrict(a: Type, b: Type)
    ensures TypeLess(a, b) ==> Key(a) != Key(b) && !TypeLess(b, a)
  {
    Strings.LessIrreflexive(Key(a));
    if TypeLess(a, b) {
      Strings.LessAsymmetric(Key(b), Key(a));
    }
  }

  predicate ClassLess(a: ClassType, b: ClassType)
  {
    Strings.Less(ClassKey(b), ClassKey(a))
  }

  /** No two different types share a key: what the assertions in `__eq__` demand of
      every pair of types the encoder compares. */
  predicate KeysInjective(ts: set<Type>)
  {
    forall a, b | a in ts && b in ts && Key(a) == Key(b) :: a == b
  }

  predicate ClassKeysInjective(cs: set<ClassType>)
  {
    forall a, b | a in cs && b in cs && ClassKey(a) == ClassKey(b) :: a == b
  }

  lemma TypeLessStrictTotal(ts: set<Type>)
    requires KeysInjective(ts)
    ensures StrictTotalOn(ts, TypeLess)
  {
    forall x | x in ts ensures !TypeLess(x, x) {
      Strings.LessIrreflexive(Key(x));
    }
    forall x, y, z | x in ts && y in ts && z in ts && TypeLess(x, y) && TypeLess(y, z)
      ensures TypeLess(x, z)
    {
      Strings.LessTransitive(Key(z), Key(y), Key(x));
    }
    forall x, y | x in ts && y in ts && x != y ensures TypeLess(x, y) || TypeLess(y, x) {
      Strings.LessConnected(Key(x), Key(y));
    }
  }

  lemma ClassLessStrictTotal(cs: set<ClassType>)
    requires ClassKeysInjective(cs)
    ensures StrictTotalOn(cs, ClassLess)
  {
    forall x | x in cs ensures !ClassLess(x, x) {
      Strings.LessIrreflexive(ClassKey(x));
    }
    forall x, y, z | x in cs && y in cs && z in cs && ClassLess(x, y) && ClassLess(y, z)
      ensures ClassLess(x, z)
    {
      Strings.LessTransitive(ClassKey(z), ClassKey(y), ClassKey(x));
    }
    forall x, y | x in cs && y in cs && x != y ensures ClassLess(x, y) || ClassLess(y, x) {
      Strings.LessConnected(ClassKey(x), ClassKey(y));
    }
  }

  /** The self-checks of `__eq__`: for two types whose keys tell them apart (or that are
      equal), equality holds exactly when neither is greater than the other. */
  lemma OrderConsistentWithEquality(a: Type, b: Type)
    requires Key(a) != Key(b) || a == b
    ensures a == b <==> !TypeLess(a, b) && !TypeLess(b, a)
  {
    if a == b {
      Strings.LessIrreflexive(Key(a));
    } else {
      Strings.LessConnected(Key(a), Key(b));
    }
  }

  /** `complete`: a union is complete iff all of its members are. */
  predicate Complete(t: Type)
  {
    match t
    case ClassT(c) => c.complete
    case UnionT(ms) => forall i | 0 <= i < |ms| :: ms[i].complete
  }

  /** `structure`: a class's methods by name; for a union, the intersection of its
      members' structures. */
  function StructureOf(t: Type): (r: Structure)
    ensures t.ClassT? ==> r == ClassStructure(t.ct.cls.methods)
    ensures t.ClassT? ==> r.Keys == set f | f in t.ct.cls.methods :: f.name
    ensures t.UnionT? && |t.members| > 0 ==> r == Intersection(MemberStructures(t.members))
    ensures t.UnionT? && |t.members| > 0 ==>
      forall name, i | name in r && 0 <= i < |t.members| :: name in ClassStructure(t.members[i].cls.methods)
    ensures t.UnionT? && |t.members| == 0 ==> r == map[]
  {
    match t
    case ClassT(c) => ClassStructure(c.cls.methods)
    case UnionT(ms) =>
      if |ms| == 0 then map[]
      else Intersection(MemberStructures(ms))
  }

  /** The structure of each member of a union, in the members' order. */
  function MemberStructures(ms: seq<ClassType>): (r: seq<Structure>)
    ensures |r| == |ms|
    ensures forall i | 0 <= i < |ms| :: r[i] == ClassStructure(ms[i].cls.methods)
  {
    seq(|ms|, i requires 0 <= i < |ms| => ClassStructure(ms[i].cls.methods))
  }

  /** `IsNominallyCompatibleWith`, with `t` the receiver. */
  predicate NominallyCompatible(t: Type, other: Type)
    ensures NominallyCompatible(t, other) <==>
      !(t.ClassT? && other.ClassT? && t.ct.complete && other.ct.complete && t.ct.cls != other.ct.cls)
  {
    match t
    case UnionT(_) => true
    case ClassT(a) =>
      match other
      case UnionT(_) => true
      case ClassT(b) => if a.complete && b.complete then b.cls == a.cls else true
  }

  /** The answer does not depend on which side is the receiver. */
  lemma NominallyCompatibleSymmetric(t: Type, other: Type)
    ensures NominallyCompatible(t, other) == NominallyCompatible(other, t)
  {
  }

  // ---------------------------------------------------------------------------------
  // Union members as a canonical sequence

  predicate Canonical(ms: seq<ClassType>)
  {
    Sorted(ms, ClassLess)
  }

  lemma CanonicalKeysDistinct(ms: seq<ClassType>)
    requires Canonical(ms)
    ensures ClassKeysInjective(Elems(ms))
  {
    forall a, b | a in Elems(ms) && b in Elems(ms) && ClassKey(a) == ClassKey(b)
      ensures a == b
    {
      forall p, q | 0 <= p < q < |ms|
        ensures ClassKey(ms[p]) != ClassKey(ms[q])
      {
        assert ClassLess(ms[p], ms[q]);
        Strings.LessIrreflexive(ClassKey(ms[p]));
      }
      var i :| 0 <= i < |ms| && ms[i] == a;
      var j :| 0 <= j < |ms| && ms[j] == b;
    }
  }

  /** Two canonical member lists are equal iff they hold the same members: union
      equality is the equality of member sets, as with `frozenset`. */
  lemma CanonicalEqualityIsSetEquality(a: seq<ClassType>, b: seq<ClassType>)
    requires Canonical(a) && Canonical(b)
    ensures a == b <==> Elems(a) == Elems(b)
  {
    if Elems(a) == Elems(b) {
      CanonicalKeysDistinct(a);
      ClassLessStrictTotal(Elems(a));
      SortedUnique(a, b, ClassLess);
    }
  }

  /** Adds one member to a canonical list; two different members with the same key
      cannot be ordered and give an error. */
  function InsertMember(x: ClassType, s: seq<ClassType>): (r: Result<seq<ClassType>, Error>)
    requires Canonical(s)
    ensures r.Ok? ==> Canonical(r.value) && Elems(r.value) == Elems(s) + {x}
    ensures r.Err? <==> exists y :: y in s && y != x && ClassKey(y) == ClassKey(x)
    ensures r.Err? ==> r.error.KeyClash?
    decreases |s|
  {
    if |s| == 0 then
      Ok([x])
    else if x == s[0] then
      assert forall y | y in s && y != x :: ClassKey(y) != ClassKey(x) by {
        forall y | y in s && y != x ensures ClassKey(y) != ClassKey(x) {
          var j :| 0 <= j < |s| && s[j] == y;
          assert j > 0 && ClassLess(s[0], s[j]);
          Strings.LessIrreflexive(ClassKey(x));
        }
      }
      assert Elems(s) == Elems(s) + {x};
      Ok(s)
    else if ClassKey(x) == ClassKey(s[0]) then
      Err(KeyClash(ClassKey(x)))
    else if ClassLess(x, s[0]) then
      assert forall j | 0 <= j < |s| :: ClassLess(x, s[j]) by {
        forall j | 0 <= j < |s| ensures ClassLess(x, s[j]) {
          if j > 0 {
            assert ClassLess(s[0], s[j]);
            Strings.LessTransitive(ClassKey(s[j]), ClassKey(s[0]), ClassKey(x));
          }
        }
      }
      assert forall y | y in s :: ClassKey(y) != ClassKey(x) by {
        forall y | y in s ensures ClassKey(y) != ClassKey(x) {
          var j :| 0 <= j < |s| && s[j] == y;
          Strings.LessIrreflexive(ClassKey(x));
        }
      }
      SortedCons(x, s, ClassLess);
      Ok([x] + s)
    else
      assert ClassLess(s[0], x) by {
        Strings.LessConnected(ClassKey(x), ClassKey(s[0]));
      }
      var tail := s[1..];
      assert Elems(s) == {s[0]} + Elems(tail) by {
        assert s == [s[0]] + tail;
      }
      match InsertMember(x, tail)
      case Err(e) => Err(e)
      case Ok(t) =>
        assert forall y | y in t :: ClassLess(s[0], y) by {
          forall y | y in t ensures ClassLess(s[0], y) {
            assert y in Elems(t);
            if y != x {
              var j :| 0 <= j < |tail| && tail[j] == y;
              assert s[j + 1] == y;
            }
          }
        }
        SortedCons(s[0], t, ClassLess);
        Ok([s[0]] + t)
  }

  /** Some two different members share a key. */
  predicate KeyClashIn(ms: seq<ClassType>)
  {
    exists i, j | 0 <= i < |ms| && 0 <= j < |ms| :: ms[i] != ms[j] && ClassKey(ms[i]) == ClassKey(ms[j])
  }

  /** A clash in a non-empty list is a clash among all but the last member, or one
      between the last member and an earlier one. */
  lemma KeyClashSplit(ms: seq<ClassType>)
    requires |ms| > 0
    ensures var init, x := ms[..|ms| - 1], ms[|ms| - 1];
      KeyClashIn(ms) <==> KeyClashIn(init) || exists y :: y in init && y != x && ClassKey(y) == ClassKey(x)
  {
    var init, x := ms[..|ms| - 1], ms[|ms| - 1];
    if KeyClashIn(init) {
      var i, j :| 0 <= i < |init| && 0 <= j < |init| && init[i] != init[j] && ClassKey(init[i]) == ClassKey(init[j]);
      assert ms[i] == init[i] && ms[j] == init[j];
    }
    if exists y :: y in init && y != x && ClassKey(y) == ClassKey(x) {
      var y :| y in init && y != x && ClassKey(y) == ClassKey(x);
      var i :| 0 <= i < |init| && init[i] == y;
      assert ms[i] == y;
    }
    if KeyClashIn(ms) {
      var i, j :| 0 <= i < |ms| && 0 <= j < |ms| && ms[i] != ms[j] && ClassKey(ms[i]) == ClassKey(ms[j]);
      if i == |ms| - 1 {
        assert ms[j] in init;
      } else if j == |ms| - 1 {
        assert ms[i] in init;
      } else {
        assert init[i] == ms[i] && init[j] == ms[j];
      }
    }
  }

  /** The member set of `frozenset(subtypes)` as a canonical list. */
  function Canonicalize(ms: seq<ClassType>): (r: Result<seq<ClassType>, Error>)
    ensures r.Ok? ==> Canonical(r.value) && Elems(r.value) == Elems(ms)
    ensures r.Err? <==> KeyClashIn(ms)
    ensures r.Err? ==> r.error.KeyClash?
  {
    if |ms| == 0 then Ok([])
    else
      var init := ms[..|ms| - 1];
      var x := ms[|ms| - 1];
      assert Elems(ms) == Elems(init) + {x} by {
        assert ms == init + [x];
      }
      KeyClashSplit(ms);
      match Canonicalize(init)
      case Err(e) => Err(e)
      case Ok(c) =>
        assert forall y :: y in c <==> y in init by {
          assert forall y :: y in c <==> y in Elems(c);
          assert forall y :: y in init <==> y in Elems(init);
        }
        InsertMember(x, c)
  }

  /** A canonical list is its own canonical form. */
  lemma {:induction false} CanonicalizeCanonical(ms: seq<ClassType>)
    requires Canonical(ms)
    ensures Canonicalize(ms) == Ok(ms)
  {
    if |ms| > 0 {
      var init := ms[..|ms| - 1];
      var x := ms[|ms| - 1];
      assert init + [x] == ms;
      InsertLast(x, init);
      CanonicalizeCanonical(init);
    }
  }

  lemma {:induction false} InsertLast(x: ClassType, s: seq<ClassType>)
    requires Canonical(s + [x])
    ensures Canonical(s) && InsertMember(x, s) == Ok(s + [x])
    decreases |s|
  {
    assert Canonical(s) by {
      forall i, j | 0 <= i < j < |s| ensures ClassLess(s[i], s[j]) {
        assert (s + [x])[i] == s[i] && (s + [x])[j] == s[j];
      }
    }
    if |s| > 0 {
      assert ClassLess(s[0], x) by {
        assert (s + [x])[0] == s[0] && (s + [x])[|s|] == x;
      }
      Strings.LessAsymmetric(ClassKey(x), ClassKey(s[0]));
      assert ClassKey(x) != ClassKey(s[0]) by {
        Strings.LessIrreflexive(ClassKey(x));
      }
      assert !ClassLess(x, s[0]);
      assert s[1..] + [x] == (s + [x])[1..];
      InsertLast(x, s[1..]);
      assert [s[0]] + (s[1..] + [x]) == s + [x];
      assert InsertMember(x, s[1..]) == Ok(s[1..] + [x]);
      assert x != s[0];
      assert InsertMember(x, s) == Ok([s[0]] + (s[1..] + [x]));
    } else {
      assert s + [x] == [x];
    }
  }

  // ---------------------------------------------------------------------------------
  // Conversions from and to pytd

  /** `str(path or "")`. */
  function PathText(path: Option<Type>): string
  {
    if path.Some? then Key(path.value) else ""
  }

  /** `Type.FromPyTD`. A resolved class reference becomes a class with the given
      completeness; an unresolved one becomes an incomplete placeholder class with no
      methods, named `str(path) + "." + name`; a parametric wrapper becomes its base type
      and a union reference a union of the converted alternatives, both converted with
      the defaults (complete, no path); any other node kind is an error. */
  function FromPyTD(td: PyTD.TypeRef, complete: bool, path: Option<Type>): (r: Result<Type, Error>)
    ensures td.ClassRef? && td.cls.Some? ==> r == Ok(ClassT(ClassType(td.cls.value, complete)))
    ensures td.ClassRef? && td.cls.None? ==>
      r.Ok? && r.value.ClassT? && !r.value.ct.complete && r.value.ct.cls.methods == []
      && r.value.ct.cls.name == PathText(path) + "." + td.name
    ensures td.Generic? ==> r == FromPyTD(td.base, true, None)
    ensures td.UnionRef? ==>
      r == UnionOf(seq(|td.typeList|, i requires 0 <= i < |td.typeList| => FromPyTD(td.typeList[i], true, None)))
    ensures td.OtherRef? ==> r == Err(Unsupported(td))
    ensures r.Err? ==> !r.error.Ambiguous? && !r.error.NoClassAttribute?
    ensures r.Ok? && r.value.UnionT? ==> |r.value.members| > 0 && Canonical(r.value.members)
    decreases td
  {
    match td
    case ClassRef(name, cls) =>
      if cls.Some? then Ok(ClassT(ClassType(cls.value, complete)))
      else Ok(ClassT(ClassType(PyTD.Class(PathText(path) + "." + name, []), false)))
    case Generic(base, _) => FromPyTD(base, true, None)
    case UnionRef(alts) =>
      var converted := seq(|alts|, i requires 0 <= i < |alts| => FromPyTD(alts[i], true, None));
      UnionOf(converted)
    case OtherRef(_) => Err(Unsupported(td))
  }

  /** Every conversion succeeded. */
  predicate AllOk(converted: seq<Result<Type, Error>>)
  {
    forall i | 0 <= i < |converted| :: converted[i].Ok?
  }

  /** `UnionType(...)` over already converted alternatives: the first conversion error
      wins; then the member set must be non-empty and hold only classes. The members
      are the converted classes, each once. */
  function UnionOf(converted: seq<Result<Type, Error>>): (r: Result<Type, Error>)
    ensures !AllOk(converted) ==> r.Err?
    ensures !AllOk(converted) ==>
      exists i | 0 <= i < |converted| :: converted[i] == Err(r.error) && AllOk(converted[..i])
    ensures |converted| == 0 ==> r == Err(EmptyUnion)
    ensures AllOk(converted) && |converted| > 0 ==>
      (r == Err(NotAClass) <==> exists i | 0 <= i < |converted| :: converted[i].value.UnionT?)
    ensures AllOk(converted) && r.Err? ==> r.error == EmptyUnion || r.error == NotAClass || r.error.KeyClash?
    ensures r.Ok? ==> r.value.UnionT? && |r.value.members| > 0 && Canonical(r.value.members)
    ensures r.Ok? ==> forall c :: c in r.value.members <==> exists i | 0 <= i < |converted| :: converted[i] == Ok(ClassT(c))
  {
    match Collect(converted)
    case Err(e) => Err(e)
    case Ok(ts) =>
      if |ts| == 0 then Err(EmptyUnion)
      else if exists i | 0 <= i < |ts| :: ts[i].UnionT? then Err(NotAClass)
      else
        var cs := seq(|ts|, i requires 0 <= i < |ts| => ts[i].ct);
        match Canonicalize(cs)
        case Err(e) => Err(e)
        case Ok(ms) =>
          assert cs[0] in Elems(cs);
          assert forall c :: c in ms <==> c in Elems(cs);
          assert forall c :: c in Elems(cs) <==> exists i | 0 <= i < |converted| :: converted[i] == Ok(ClassT(c)) by {
            forall c ensures c in Elems(cs) ==> exists i | 0 <= i < |converted| :: converted[i] == Ok(ClassT(c)) {
              if c in Elems(cs) {
                var i :| 0 <= i < |cs| && cs[i] == c;
                assert converted[i] == Ok(ClassT(c));
              }
            }
            forall c | exists i | 0 <= i < |converted| :: converted[i] == Ok(ClassT(c)) ensures c in Elems(cs) {
              var i :| 0 <= i < |converted| && converted[i] == Ok(ClassT(c));
              assert cs[i] == c;
            }
          }
          Ok(UnionT(ms))
  }

  /** The converted values in order, or the first error. */
  function Collect(converted: seq<Result<Type, Error>>): (r: Result<seq<Type>, Error>)
    ensures r.Ok? <==> AllOk(converted)
    ensures r.Ok? ==> |r.value| == |converted| && forall i | 0 <= i < |converted| :: converted[i] == Ok(r.value[i])
    ensures r.Err? ==> exists i | 0 <= i < |converted| :: converted[i] == Err(r.error) && AllOk(converted[..i])
  {
    if |converted| == 0 then Ok([])
    else
      match converted[0]
      case Err(e) =>
        assert AllOk(converted[..0]);
        Err(e)
      case Ok(t) =>
        var rest := converted[1..];
        match Collect(rest)
        case Err(e) =>
          var i :| 0 <= i < |rest| && rest[i] == Err(e) && AllOk(rest[..i]);
          assert converted[..i + 1] == [converted[0]] + rest[..i];
          assert converted[i + 1] == Err(e);
          Err(e)
        case Ok(ts) => Ok([t] + ts)
  }

  /** `ToPyTD`: a class reference already resolved to its class, or a union of those. */
  function ToPyTD(t: Type): PyTD.TypeRef
  {
    match t
    case ClassT(c) => PyTD.ClassRef(c.cls.name, Some(c.cls))
    case UnionT(ms) => PyTD.UnionRef(seq(|ms|, i requires 0 <= i < |ms| => PyTD.ClassRef(ms[i].cls.name, Some(ms[i].cls))))
  }

  /** Round trip of a class: converting its wire form back, with its completeness,
      gives the same type whatever the path. */
  lemma ClassRoundTrip(c: ClassType, path: Option<Type>)
    ensures FromPyTD(ToPyTD(ClassT(c)), c.complete, path) == Ok(ClassT(c))
  {
  }

  lemma {:induction false} CollectAllOk(converted: seq<Result<Type, Error>>, ts: seq<Type>)
    requires |converted| == |ts| && forall i | 0 <= i < |ts| :: converted[i] == Ok(ts[i])
    ensures Collect(converted) == Ok(ts)
  {
    if |ts| > 0 {
      CollectAllOk(converted[1..], ts[1..]);
      assert [ts[0]] + ts[1..] == ts;
    }
  }

  /** Round trip of a union of complete classes (union members are always converted as
      complete, so only such unions come back unchanged). */
  lemma UnionRoundTrip(ms: seq<ClassType>, complete: bool, path: Option<Type>)
    requires |ms| > 0 && Canonical(ms)
    requires forall i | 0 <= i < |ms| :: ms[i].complete
    ensures FromPyTD(ToPyTD(UnionT(ms)), complete, path) == Ok(UnionT(ms))
  {
    var td := ToPyTD(UnionT(ms));
    var alts := td.typeList;
    var converted := seq(|alts|, i requires 0 <= i < |alts| => FromPyTD(alts[i], true, None));
    var ts := seq(|ms|, i requires 0 <= i < |ms| => ClassT(ms[i]));
    forall i | 0 <= i < |ms| ensures converted[i] == Ok(ts[i]) {
      assert alts[i] == PyTD.ClassRef(ms[i].cls.name, Some(ms[i].cls));
    }
    CollectAllOk(converted, ts);
    var cs := seq(|ts|, i requires 0 <= i < |ts| => ts[i].ct);
    assert cs == ms;
    CanonicalizeCanonical(ms);
    assert UnionOf(converted) == Ok(UnionT(ms));
  }
}
