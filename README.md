# A model of the SAT encoder for class matching

The encoder decides which *incomplete* classes, those inferred from usage and
known only partly, can be matched with which *complete* classes, whose definitions
are known. It does this by writing a SAT problem.

- **Variables.** Each variable is an `Equality` between two constraint types.
  A constraint type is a class, marked complete or incomplete, or a union of
  classes.
- **Structural constraint.** Each pair of types gets one constraint built from
  their methods. The two types must agree nominally. For every method name they
  share, each signature of the one must be matched by some signature of the
  other, in the direction(s) where the other side is complete. A method that
  exists on one side only is fatal if the side lacking it is complete.
- **Worklist.** The types named in method signatures are themselves paired and
  given constraints. This repeats until no new pair appears.
- **Transitivity.** Every chain `a = b = c` through an incomplete `b` gets an
  implication.
- **Cardinality.** Every incomplete class gets an "at least one match" record.
- **Solving.** The solver's assignment is read back as a map from each incomplete
  class to the complete type it was matched with.

The project is split into these Dafny modules:

- `Strings`: the ordering of Python `str` values.
- `Sorting`: sorting a set by a strict total order, and uniqueness of the result.
- `PyTD`: the part of the intermediate representation that the encoder reads.
- `Structures`: a class's structure, and the intersection of several structures.
- `Types`: constraint types, their text keys and order, nominal compatibility,
  and conversion to and from the intermediate representation.
- `Equalities`: order-normalised pairs of types.
- `Formulas`: formulas, the constraint log, and what it means for an assignment
  to satisfy the log.
- `Shapes`: what each generated formula must look like, and what a satisfying
  assignment then has to do.
- `Encoder`: the `SATEncoder` class itself.

The SAT backend is modelled as an append-only log of constraint records. Its
solution is a parameter of `Solve`. Types are compared as in the source:
`a > b` exactly when `str(a) < str(b)`, so sorting is descending by text key.
Because of this, the model refuses two distinct types with the same key. On such
a pair the source's `__eq__` assertions fail, and the model reports a `KeyClash`
error at that point instead. This holds exactly for classes that the encoder
compares. The members of one union are not compared in the source, so there the
model differs (see "Left out"). A union's key is
built from its members' keys listed in key order, which is not the text the
source's `str` gives a union (see "Left out").

The encoder keeps a ghost history of its work. Each pair handed to
`_GenerateConstraints` becomes a *step*: the pair, the known types before and
after its constraint was generated, and the records it wrote. A reference met
while a pair is handled is resolved against the known types at that moment. The
contracts therefore say that it resolves against *some* set of known types
between the step's start and end.

## Model

| member | source | states |
|---|---|---|
| Strings.LessTransitive | match/sat_encoder.py:50-51 | the `str` order that `__gt__` compares by is transitive |
| Strings.LessConnected | match/sat_encoder.py:50-51 | two different strings are always ordered one way or the other |
| Sorting.SortBy | match/sat_encoder.py:288 | sorting a set by a strict total order yields a sorted sequence with exactly the set's elements, each once |
| Sorting.SortedUnique | match/sat_encoder.py:288 | two sorted sequences with the same elements are equal, so the sorted iteration order is determined by the set alone |
| Sorting.MinimumExists | match/sat_encoder.py:353 | every non-empty part of a strictly totally ordered set has a least element |
| Structures.ClassStructure | match/sat_encoder.py:73 | a class's structure has exactly the names of its methods, and each name maps to one of its methods with that name |
| Structures.ClassStructureLastWins | match/sat_encoder.py:73 | when several methods share a name, the structure keeps the last of them |
| Structures.Intersection | match/sat_encoder.py:115-139 | a name is in the intersection exactly when some signature of it is in every structure; its signatures are exactly those common to all; every name kept is in every structure |
| Structures.IntersectStructures | match/sat_encoder.py:127-139 | the loop over the first structure's names computes exactly the intersection |
| Types.KeyForm | match/sat_encoder.py:109-112 | a complete class's key is its name; an incomplete class's key is its name followed by `#`; a union's key starts with `U` |
| Types.TypeLessStrict | match/sat_encoder.py:50-51 | two types ordered by `__gt__` have different keys and are not ordered the other way round |
| Types.TypeLessStrictTotal | match/sat_encoder.py:50-51 | on types with distinct keys, `__gt__` is a strict total order |
| Types.OrderConsistentWithEquality | match/sat_encoder.py:93-100 | for types with distinct keys, two types are equal exactly when neither is ordered before the other, as `__eq__` asserts |
| Types.StructureOf | match/sat_encoder.py:145-152 | a class's structure is its methods by name, so it has exactly its method names; a union's structure is the intersection of its members' structures (`MemberStructures`), so every name in it is a method name of each member; an empty member list has an empty structure |
| Types.NominallyCompatible | match/sat_encoder.py:75-83 | two types are nominally incompatible exactly when both are complete classes with different class definitions; a union is compatible with everything |
| Types.NominallyCompatibleSymmetric | match/sat_encoder.py:75-83 | nominal compatibility does not depend on the order of its arguments |
| Types.CanonicalEqualityIsSetEquality | match/sat_encoder.py:147 | two canonical member sequences are equal exactly when their member sets are, as for the frozenset of a union |
| Types.CanonicalKeysDistinct | match/sat_encoder.py:147 | the members of a canonical union have pairwise distinct keys |
| Types.InsertMember | match/sat_encoder.py:147 | adding a class to a canonical member sequence gives a canonical sequence with that class added, and fails exactly when a different member has the same key |
| Types.Canonicalize | match/sat_encoder.py:145-150 | a union's members become a canonical sequence with the same elements, failing exactly when two different members clash by key |
| Types.CanonicalizeCanonical | match/sat_encoder.py:147 | a sequence that is already canonical is left unchanged |
| Types.FromPyTD | match/sat_encoder.py:29-45 | a resolved class becomes that class with the given completeness; an unresolved one becomes an incomplete class without methods named `str(path) + "." + name`; a parametric type converts as its base type and a union as the union of its converted alternatives, both with the defaults; other node kinds are an `Unsupported` error |
| Types.Collect | match/sat_encoder.py:42 | the alternatives of a union convert exactly when each converts; the values come back in order, and a failure is the first failing alternative's error |
| Types.UnionOf | match/sat_encoder.py:41-42 | the first conversion error wins; no alternatives is `EmptyUnion`; a union among the converted alternatives is `NotAClass`; otherwise the result is a non-empty canonical union whose members are exactly the converted classes |
| Types.ClassRoundTrip | match/sat_encoder.py:85-88 | converting a class type to the intermediate representation and back gives the same class type |
| Types.UnionRoundTrip | match/sat_encoder.py:158-159 | converting a union of complete classes to the intermediate representation and back gives the same union |
| Equalities.MakeEquality | match/sat_encoder.py:191-194 | the pair holds exactly the two given types |
| Equalities.MakeEqualityOrdered | match/sat_encoder.py:194 | the left side is the smaller of the two in the type order |
| Equalities.MakeEqualitySymmetric | match/sat_encoder.py:183-188 | the pair does not depend on the order of its arguments |
| Equalities.Other | match/sat_encoder.py:204-206 | for either side of a pair, `Other` gives the remaining side |
| Equalities.EqLessStrictTotal | match/sat_encoder.py:288 | pairs over types with distinct keys are strictly totally ordered |
| Equalities.PairsMembers | match/sat_encoder.py:333-334 | the pairs of a type set are exactly the ordered pairs of two different members |
| Equalities.PairsMonotone | match/sat_encoder.py:342-343 | more types give a superset of pairs |
| Formulas.ConjWithFalse | match/sat_encoder.py:309-311 | a conjunction containing `False` is false under any assignment |
| Shapes.Resolve | match/sat_encoder.py:240-247 | a reference whose name exactly one known class carries resolves to that class; two or more such classes are an `Ambiguous` error; anything else is converted by `FromPyTD` with the path |
| Shapes.ResolveSound | match/sat_encoder.py:240-247 | in a bound without two classes of one name, a reference that converts also resolves, to a type of the bound |
| Shapes.DiffsBelow | match/sat_encoder.py:252-253 | the compared positions are exactly those, in increasing order, where the two signatures' types differ |
| Shapes.IdenticalSignaturesAgree | match/sat_encoder.py:249-264 | two identical signatures give the empty conjunction, which always holds |
| Shapes.UnmatchedArityFails | match/sat_encoder.py:249-274 | if a left signature has no right signature of the same arity, the one-way formula is false |
| Shapes.NoOverloadsNoRequirement | match/sat_encoder.py:270-274 | a method without signatures requires nothing |
| Shapes.MissingNameFails | match/sat_encoder.py:307-311 | a name that a complete side lacks makes the requirement false |
| Shapes.NothingKnownNothingRequired | match/sat_encoder.py:294-311 | when either side is incomplete and has no methods, the requirement has no parts |
| Shapes.PairRecords | match/sat_encoder.py:311-316 | a satisfying assignment that sets the pair true meets the requirement; with both sides complete, meeting the requirement also sets the pair true; otherwise the records include the hint and are satisfied by leaving the pair false |
| Shapes.PairRecordsSides | match/sat_encoder.py:311-316 | the records of a compatible pair name exactly its two sides and the sides of the pairs in its requirement; the `False` record of an incompatible pair names only its two sides |
| Shapes.PairRecordsDefine | match/sat_encoder.py:312-316 | after a pair's records are written, that pair is defined in the log |
| Shapes.PairConstrainedDefines | match/sat_encoder.py:288-316 | the records generated for a pair define it in any log they are appended to |
| Shapes.TransRecord | match/sat_encoder.py:366-372 | an assignment satisfying the record that sets `a = b` and `b = c` also sets `a = c`; the record holds whenever `a = b` or `b = c` is false |
| Shapes.DefinedInMeans | match/sat_encoder.py:311-316 | a pair is defined in the log exactly when some record defines it |
| Shapes.ForcedFalse | match/sat_encoder.py:290-291 | a pair forced to `False` is false in every satisfying assignment |
| Shapes.FailedRequirementRefutes | match/sat_encoder.py:311-316 | when the structural requirement is false, the pair is false in every satisfying assignment, both for the equivalence and for the implication |
| Shapes.ConstrainedPairSound | match/sat_encoder.py:288-316 | a pair that a satisfying assignment sets true is nominally compatible, and its requirement over the names of both structures holds |
| Shapes.CardinalityGuarantee | match/sat_encoder.py:377-379 | a satisfying assignment makes at least one candidate of the class true |
| Shapes.TransitivityGuarantee | match/sat_encoder.py:366-372 | a satisfying assignment that makes `a = b` and `b = c` true also makes `a = c` true |
| Encoder.Incomp | match/sat_encoder.py:394 | the matched side is one of the pair's two sides; it is complete only when both sides are, and incomplete whenever either side is |
| Encoder.StepDefines | match/sat_encoder.py:288-316 | every generated pair is defined in a log that holds the records of all steps |
| Encoder.AllDefined | match/sat_encoder.py:338-347 | every pair handled by the steps is defined in the log of their records |
| Encoder.GeneratedPairSound | match/sat_encoder.py:288-316 | in every satisfying assignment, a generated pair set true is nominally compatible and meets its requirement, read against the types known while it was generated |
| Encoder.SortPairs | match/sat_encoder.py:288 | the pairs are returned sorted and each exactly once |
| Encoder.SortTypes | match/sat_encoder.py:353-358 | the types are returned sorted, with exactly the set's elements |
| Encoder.RoundShrinks | match/sat_encoder.py:340-347 | each round of the worklist loop decreases the measure, so the loop ends |
| Encoder.BatchStep | match/sat_encoder.py:340-347 | after a batch of new pairs, every pair seen so far has been handled exactly once |
| Encoder.TransAllHas | match/sat_encoder.py:359-372 | the three nested loops write the record of every three different listed types |
| Encoder.TransAllOnly | match/sat_encoder.py:359-372 | the three nested loops write nothing but records of three different listed types, the middle one from the incomplete list |
| Encoder.TransitivityListed | match/sat_encoder.py:358-372 | a log holding the records of the three nested loops over sorted types has a transitivity record for every chain through an incomplete middle |
| Encoder.RecordedTransitivityHolds | match/sat_encoder.py:358-372 | in every satisfying assignment, matching is transitive through an incomplete middle type |
| Encoder.CardinalityListOnly | match/sat_encoder.py:375-379 | the cardinality loop writes at most one record per listed type, each the record of a listed incomplete class over its candidates |
| Encoder.CardinalityListed | match/sat_encoder.py:375-379 | the records of the cardinality loop give every incomplete known class its record over its candidates |
| Encoder.SolvedAll | match/sat_encoder.py:389-401 | after the read-back loop, a class has a result exactly when some true pair matches it with a complete type, and its result is the last such pair in sorted order |
| Encoder.ReadMatches | match/sat_encoder.py:390-400 | the read-back loop fails only on a true pair that has a complete side and a union as its incomplete side; otherwise it records every matched class, the later pair in sorted order winning |
| Encoder.SATEncoder.constructor | match/sat_encoder.py:219-221 | a new encoder knows no types and has written nothing |
| Encoder.SATEncoder.NewEquality | match/sat_encoder.py:223-226 | both types are added to the known types and their pair is returned; a key clash with a known type is a `KeyClash` error that leaves the types unchanged |
| Encoder.SATEncoder.ResolvePair | match/sat_encoder.py:254-260 | the first reference that fails to resolve gives the error; two resolved references give their pair exactly when no key clashes, and both become known; the known types change only on success; inside a sound bound, references that convert always give a pair |
| Encoder.SATEncoder.SignaturesEqual | match/sat_encoder.py:249-266 | a different arity gives `False`; otherwise the result is the conjunction of the pairs at the differing parameter positions and at the return type, in order, and the types added to the known ones are exactly the two sides of each of those pairs; an error comes only from resolution or a key clash; inside a sound bound, signatures whose references convert always succeed |
| Encoder.SATEncoder.SignatureAgainst | match/sat_encoder.py:271-273 | one left signature gives the disjunction of its formulas against every right signature, in order, and adds exactly the sides of the pairs in it; same error kinds and same success promise |
| Encoder.SATEncoder.FunctionsEqualOneWay | match/sat_encoder.py:268-274 | the result is the conjunction over left signatures of their disjunctions against the right method, and adds exactly the sides of the pairs in it; same error kinds and same success promise |
| Encoder.SATEncoder.SharedName | match/sat_encoder.py:295-306 | a shared name contributes the one-way formula for each side whose partner is complete, and adds exactly the sides of the pairs in those formulas |
| Encoder.SATEncoder.ScanNames | match/sat_encoder.py:294-310 | the scan over sorted names collects every shared name's formulas and stops with `False` at the first name a complete side lacks; the types it adds are exactly the sides of the pairs in the collected formulas |
| Encoder.SATEncoder.StructuralConstraint | match/sat_encoder.py:293-316 | for compatible types, the requirement covers exactly the sorted union of both structures' names, and the pair is recorded as equivalent to it (both complete) or implying it with a true hint; the types added are exactly the sides of the pairs in the requirement |
| Encoder.SATEncoder.GenerateConstraint | match/sat_encoder.py:288-316 | an incompatible pair is recorded as `False`; a compatible pair as `StructuralConstraint` states; a failure writes nothing |
| Encoder.SATEncoder.DefinePair | match/sat_encoder.py:289-316 | on success, exactly the pair's records are appended, as one new step, and the types added are exactly the sides of the pairs those records name; on failure the log and the steps are unchanged; inside a sound, convertible bound it succeeds |
| Encoder.SATEncoder.DefineNext | match/sat_encoder.py:288-316 | one pass of the loop defines the next pair of the order as one more step, keeping the steps generated in order and the known types exactly the sides their records name; a failure adds no step |
| Encoder.SATEncoder.DefineAll | match/sat_encoder.py:288-316 | the pairs are handled in the given order, one step each, and all are defined afterwards; the types added are exactly the sides of the pairs named by the steps' records |
| Encoder.SATEncoder.GenerateConstraints | match/sat_encoder.py:276-316 | a batch is handled in sorted order, each pair once, one step each, and every pair of the batch is defined afterwards; the types added are exactly the sides of the pairs named by the steps' records; inside a sound, convertible bound it succeeds |
| Encoder.SATEncoder.Round | match/sat_encoder.py:340-347 | one round handles the pairs added last and returns the pairs of the types known now; the known types stay the initial ones plus exactly the sides of the pairs the log names; a round that meets no new type adds no pair |
| Encoder.SATEncoder.Saturate | match/sat_encoder.py:338-347 | the worklist loop ends with every pair of the known types defined and handled exactly once; the log is exactly the steps' records, and the known types are the initial ones plus exactly the sides of the pairs those records name |
| Encoder.SATEncoder.TransitivityThrough | match/sat_encoder.py:363-372 | the innermost loop appends exactly the records for `a`, `b` and every listed `c` other than both |
| Encoder.SATEncoder.TransitivityFrom | match/sat_encoder.py:360-372 | the middle loop appends exactly the records for `a` and every incomplete `b` other than `a` |
| Encoder.SATEncoder.AddTransitivity | match/sat_encoder.py:353-372 | exactly the records of the three nested loops are appended, in order; every chain `a, b, c` of distinct known types with an incomplete `b` has its record |
| Encoder.SATEncoder.AddCardinality | match/sat_encoder.py:374-379 | exactly one record per incomplete class, in sorted order, is appended, over its pairs with complete types; every incomplete class has its record |
| Encoder.SATEncoder.Generate | match/sat_encoder.py:318-379 | the given classes with a key clash are an error; otherwise the log is exactly the pairs' records in generation order, then the transitivity records, then the cardinality records; every pair of all types met is defined and handled once; the types met are exactly the given classes plus the sides of the pairs the steps' records name; inside a sound, convertible bound it succeeds |
| Encoder.SATEncoder.Solve | match/sat_encoder.py:381-401 | the result is an error exactly when some true pair with a complete side has a union as its incomplete side (`incomp.cls` does not exist); otherwise it maps exactly the classes matched by a true pair to a complete type, each to its last match in sorted order |

## Left out

- The SAT backend (`sat_problem`) is not part of this model. Its calls become records appended to a log. `Solve` receives the assignment it found as a map from pairs to an optional truth value. The model does not search for an assignment.
- Logging (`logging.info`, `logging.warning`) produces no state the encoder reads, so it is left out.
- `_SATHint` is kept only as a `Hint` record. Hints guide the solver and have no meaning in `Satisfies`.
- `Powerset` (lines 209-213) is not used by the encoder and is not modelled.
- The abstract base class methods that raise `NotImplementedError` are not modelled. The `Type` datatype has exactly the two kinds that implement them.
- Of the intermediate representation, only what the encoder reads is modelled: classes with names and methods, signatures with parameter and return types, and the class, parametric, union and "other" type nodes. Parents, constants, templates and exceptions are left out. Parametric types are reduced to their base type.
- A class reference is a value that holds its class, and a class holds its methods, so a class whose methods refer back to it cannot be written as a resolved reference. Such a reference has to be given unresolved (`cls` is `None`). `Shapes.Resolve` then recovers the class by name from the known types, as `_TypeFromPyTD` does. An unresolved reference to a class that is not yet known becomes a placeholder class instead.
- The source does not simplify conjunctions and disjunctions itself. Simplification happens inside `sat_problem`, so formulas are kept as built.
- Types.Key: a union's key is `U` followed by the tuple of its members' own keys, in key order. The source's `str` of a union (line 180) formats the tuple of the frozenset's members, which shows each member's `repr` (`ClassType(cls=..., complete=...)`, lines 105-107) in the frozenset's iteration order. Neither the text nor the order is reproduced. So the order among unions, the names of placeholders read with a union as path, and which unions clash by key can differ from the source's.
- Types.Canonicalize: the model behaves differently from the source on a union of two distinct classes with the same key. The source accepts such a union, because `ClassType.__hash__` hashes the class itself (match/sat_encoder.py:90-91), so the frozenset (:147) keeps the two apart without comparing them by key. The model reports `KeyClash` instead. Union members are kept in a canonical order (by key) rather than in an unordered set.
- Structures.Intersection: a name's signatures keep the order they have in the first structure. The source builds `tuple(sigs)` from a set, whose order is not determined. For a union, the first structure is that of the first member in the canonical order (descending by key), where the source takes the first one the frozenset yields.
- Encoder.SATEncoder.NewEquality: a key clash is reported as an error as soon as the clashing type would enter the known types. The source fails on an assertion later, at the latest when the pairs of lines 342-343 are formed.
- Encoder.SATEncoder.SignaturesEqual: after an error the known types are only bounded (`old(types) <= types <= u`); which types were added before the failing position is not stated. The same holds for every method above it up to `Generate`. In the source the error is raised and the encoder is not used any further.
- Encoder.SATEncoder.SignaturesEqual: each reference is said to resolve against some set of known types between the ones at the start and at the end of the call, not against the exact set at that position. The same holds for every method above it that generates a pair's constraint.
- Encoder.SATEncoder.Generate: requires a fresh encoder and the ghost bound `Closed(u)`. The bound is a finite set of types that contains every type reachable through method signatures, which is what makes the worklist loop terminate. The source assumes such termination.
- Encoder.SATEncoder.Solve: the backend's solution holds only pairs. Variables of other kinds, which the source skips, do not occur.
- Encoder.SATEncoder.Solve: a true pair whose two sides are both complete is recorded too. `incomp` is then the right side, and its class is mapped to the left side. The model follows the code here.
- The `assert eq in variables` checks of lines 369-371 are not restated. `Equalities.PairsMembers` shows that they hold for distinct known types.
