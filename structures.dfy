/** Structures: a type's methods keyed by name, and the intersection of several
    structures that gives a union type its methods. */
module Structures {
  import opened PyTD
  import opened Sorting

  type Structure = map<string, Function>

  /** The structure of a class, `{func.name: func for func in cls.methods}`: one entry per
      method name, and when two methods share a name the later one is kept. */
  function ClassStructure(methods: seq<Function>): (st: Structure)
    ensures st.Keys == set f | f in methods :: f.name
    ensures forall n | n in st :: st[n] in methods && st[n].name == n
  {
    if |methods| == 0 then map[]
    else
      var last := methods[|methods| - 1];
      ClassStructure(methods[..|methods| - 1])[last.name := last]
  }

  /** The entry for a name is its LAST method of that name. */
  lemma {:induction false} ClassStructureLastWins(methods: seq<Function>, i: nat)
    requires i < |methods|
    requires forall j | i < j < |methods| :: methods[j].name != methods[i].name
    ensures methods[i].name in ClassStructure(methods)
    ensures ClassStructure(methods)[methods[i].name] == methods[i]
  {
    if i < |methods| - 1 {
      ClassStructureLastWins(methods[..|methods| - 1], i);
    }
  }

  predicate InAll(structs: seq<Structure>, name: string)
  {
    forall k | 0 <= k < |structs| :: name in structs[k]
  }

  /** Every structure has `name`, with signature `s` among its overloads. */
  predicate InAllWith(structs: seq<Structure>, name: string, s: Signature)
  {
    forall k | 0 <= k < |structs| :: name in structs[k] && s in structs[k][name].signatures
  }

  /** The signatures that `name` has in every one of the structures. */
  function CommonSet(structs: seq<Structure>, name: string): set<Signature>
    requires |structs| > 0 && InAll(structs, name)
  {
    set s | s in structs[0][name].signatures && forall k | 0 <= k < |structs| :: s in structs[k][name].signatures
  }

  /** The members of `keep`, each once, in the order of their first occurrence in `sigs`. */
  function Restrict(sigs: seq<Signature>, keep: set<Signature>): (r: seq<Signature>)
    ensures Elems(r) == Elems(sigs) * keep
    ensures forall i, j | 0 <= i < j < |r| :: r[i] != r[j]
  {
    if |sigs| == 0 then []
    else
      var r := Restrict(sigs[..|sigs| - 1], keep);
      var s := sigs[|sigs| - 1];
      assert Elems(sigs) == Elems(sigs[..|sigs| - 1]) + {s} by {
        assert sigs == sigs[..|sigs| - 1] + [s];
      }
      assert Elems(r + [s]) == Elems(r) + {s};
      if s in keep && s !in r then r + [s] else r
  }

  /** The intersection of several structures. A name is kept iff every structure has it
      and at least one signature of it is common to all of them; it then has exactly
      the common signatures. */
  function Intersection(structs: seq<Structure>): (st: Structure)
    requires |structs| > 0
    ensures forall name :: name in st <==> exists s :: InAllWith(structs, name, s)
    ensures forall name, s | name in st :: s in st[name].signatures <==> InAllWith(structs, name, s)
    ensures forall name | name in st :: st[name].name == name
    ensures forall name, k | name in st && 0 <= k < |structs| :: name in structs[k]
  {
    var st := map name | name in structs[0] && InAll(structs, name) && CommonSet(structs, name) != {} ::
      Function(name, Restrict(structs[0][name].signatures, CommonSet(structs, name)));
    assert forall name, s | name in st :: s in st[name].signatures <==> s in CommonSet(structs, name) by {
      forall name, s | name in st ensures s in st[name].signatures <==> s in CommonSet(structs, name) {
        assert s in st[name].signatures <==> s in Elems(st[name].signatures);
      }
    }
    forall name | exists s :: InAllWith(structs, name, s)
      ensures name in st
    {
      var s :| InAllWith(structs, name, s);
      assert s in structs[0][name].signatures;
      assert s in CommonSet(structs, name);
    }
    forall name | name in st
      ensures exists s :: InAllWith(structs, name, s)
    {
      var s :| s in CommonSet(structs, name);
      assert InAllWith(structs, name, s);
    }
    st
  }

  /** `_IntersectStructures`: for every name of the first structure that all the others
      have, intersect the signature sets one structure at a time, and keep the name when
      something is left. */
  method IntersectStructures(structs: seq<Structure>) returns (structure: Structure)
    requires |structs| > 0
    ensures structure == Intersection(structs)
  {
    structure := map[];
    var names := structs[0].Keys;
    while names != {}
      invariant names <= structs[0].Keys
      invariant forall n :: n in structure <==> n in Intersection(structs) && n !in names
      invariant forall n | n in structure :: structure[n] == Intersection(structs)[n]
      decreases |names|
    {
      var name :| name in names;
      if forall k | 0 <= k < |structs| :: name in structs[k] {
        var first := structs[0][name];
        var sigs := Elems(first.signatures);
        for k := 1 to |structs|
          invariant sigs == set s | s in first.signatures && forall j | 0 <= j < k :: s in structs[j][name].signatures
        {
          sigs := sigs * Elems(structs[k][name].signatures);
        }
        assert sigs == CommonSet(structs, name);
        if sigs != {} {
          structure := structure[name := Function(name, Restrict(first.signatures, sigs))];
        }
      }
      names := names - {name};
    }
    assert structure.Keys == Intersection(structs).Keys;
  }
}
