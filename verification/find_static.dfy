/**
 The find-static analysis: for every function declaration a front-end
 delivers, in traversal order, either report "Should this function be
 static?" at the declaration's location or record the declaration's bare
 name in a process-wide registry of names already seen.
 */
module FindStatic {

  /** A host source location. The analysis never inspects it; it only copies
      the location of the triggering declaration into a finding. */
  type Location = nat

  /** The part of a function declaration node that the analysis consults. */
  datatype FuncDecl = FuncDecl(
    name: string,          // the bare name, without parameter types
    isDefinition: bool,    // this occurrence is the definition, not a prototype
    hasBody: bool,         // some occurrence of the function has a body
    isStatic: bool,        // already has internal linkage
    inMainFile: bool,      // its location lies in the file being compiled
    isMain: bool,          // it is the program entry point
    loc: Location)

  /** The registry: bare name to presence marker. Every name is inserted with
      the marker 1. */
  type FunctionMap = map<string, int>

  predicate AllMarked(m: FunctionMap)
  {
    forall k :: k in m ==> m[k] == 1
  }

  // ---------------------------------------------------------------------
  // The four conditions of one visit, and the candidacy test
  // ---------------------------------------------------------------------

  predicate IsValidDef(d: FuncDecl)
  {
    d.isDefinition && d.hasBody
  }

  predicate IsNotDeclared(m: FunctionMap, d: FuncDecl)
  {
    d.name !in m
  }

  predicate IsNotStatic(d: FuncDecl)
  {
    !d.isStatic
  }

  predicate CouldBeStatic(d: FuncDecl)
  {
    d.inMainFile && !d.isMain
  }

  /** A visit reports a warning exactly when all four conditions hold. */
  predicate IsCandidate(m: FunctionMap, d: FuncDecl)
  {
    IsValidDef(d) && IsNotDeclared(m, d) && IsNotStatic(d) && CouldBeStatic(d)
  }

  // ---------------------------------------------------------------------
  // Registry updates
  // ---------------------------------------------------------------------

  /** Insertion of (key, 1) that keeps an existing entry untouched. */
  function Insert(m: FunctionMap, key: string): (r: FunctionMap)
    ensures r.Keys == m.Keys + {key}
    ensures forall k :: k in m ==> r[k] == m[k]
    ensures key !in m ==> r[key] == 1
    ensures key in m ==> r == m
  {
    if key in m then m else m[key := 1]
  }

  /** The registry after one visit of `d`. */
  function Step(m: FunctionMap, d: FuncDecl): (r: FunctionMap)
    ensures IsCandidate(m, d) ==> r == m
    ensures !IsCandidate(m, d) ==> r.Keys == m.Keys + {d.name}
    ensures forall k :: k in m ==> k in r && r[k] == m[k]
    ensures AllMarked(m) ==> AllMarked(r)
  {
    if IsCandidate(m, d) then m else Insert(m, d.name)
  }

  // ---------------------------------------------------------------------
  // A run over a sequence of declarations in visit order
  // ---------------------------------------------------------------------

  /** The registry after visiting every declaration of `decls`, starting from `m`. */
  function MapAfter(m: FunctionMap, decls: seq<FuncDecl>): (r: FunctionMap)
    decreases |decls|
  {
    if decls == [] then m
    else Step(MapAfter(m, decls[..|decls| - 1]), decls[|decls| - 1])
  }

  /** Whether the visit of `decls[i]` reports, given everything visited before it. */
  predicate FlaggedAt(m: FunctionMap, decls: seq<FuncDecl>, i: nat)
    requires i < |decls|
  {
    IsCandidate(MapAfter(m, decls[..i]), decls[i])
  }

  /** The locations reported while visiting `decls`, starting from `m`. */
  function FindingsOf(m: FunctionMap, decls: seq<FuncDecl>): (r: seq<Location>)
    decreases |decls|
  {
    if decls == [] then []
    else
      var before := decls[..|decls| - 1];
      var d := decls[|decls| - 1];
      FindingsOf(m, before) + (if IsCandidate(MapAfter(m, before), d) then [d.loc] else [])
  }

  /** The indices, in visit order, of the declarations whose visit reports. */
  function FlaggedIndices(m: FunctionMap, decls: seq<FuncDecl>): (r: seq<nat>)
    decreases |decls|
  {
    if decls == [] then []
    else
      var before := decls[..|decls| - 1];
      FlaggedIndices(m, before)
        + (if IsCandidate(MapAfter(m, before), decls[|decls| - 1]) then [|decls| - 1] else [])
  }

  // ---------------------------------------------------------------------
  // Properties of a single visit
  // ---------------------------------------------------------------------

  /** Visiting a single declaration reports its own location exactly when
      it is a definition with a body, its name is not in the registry, it is
      not static, it lies in the main file and it is not main; otherwise the
      registry gains exactly its name. */
  lemma VisitEffect(m: FunctionMap, d: FuncDecl)
    ensures FindingsOf(m, [d]) ==
      (if d.isDefinition && d.hasBody && d.name !in m && !d.isStatic && d.inMainFile && !d.isMain
       then [d.loc] else [])
    ensures MapAfter(m, [d]).Keys ==
      m.Keys + (if d.isDefinition && d.hasBody && d.name !in m && !d.isStatic && d.inMainFile && !d.isMain
                then {} else {d.name})
  {
  }

  /** main, static functions, declarations outside the main file,
      prototypes, bodiless declarations and already-seen names are never
      reported, and their name is always recorded. */
  lemma ExcludedDeclsRecorded(m: FunctionMap, d: FuncDecl)
    requires d.isMain || d.isStatic || !d.inMainFile || !d.isDefinition || !d.hasBody || d.name in m
    ensures !IsCandidate(m, d)
    ensures d.name in Step(m, d)
  {
  }

  /** Recording a name twice is the same as recording it once. */
  lemma InsertIdempotent(m: FunctionMap, key: string)
    ensures Insert(Insert(m, key), key) == Insert(m, key)
  {
  }

  // ---------------------------------------------------------------------
  // Properties of a run
  // ---------------------------------------------------------------------

  lemma PrefixOfPrefix(decls: seq<FuncDecl>, i: nat)
    requires i < |decls|
    ensures decls[..|decls| - 1][..i] == decls[..i]
  {
  }

  /** The registry only grows over a run: no key disappears and no marker changes. */
  lemma {:induction false} RegistryGrows(m: FunctionMap, decls: seq<FuncDecl>)
    ensures m.Keys <= MapAfter(m, decls).Keys
    ensures forall k :: k in m ==> MapAfter(m, decls)[k] == m[k]
    decreases |decls|
  {
    if decls != [] {
      RegistryGrows(m, decls[..|decls| - 1]);
    }
  }

  /** Every marker in the registry stays 1. */
  lemma {:induction false} MarkersStayOne(m: FunctionMap, decls: seq<FuncDecl>)
    requires AllMarked(m)
    ensures AllMarked(MapAfter(m, decls))
    decreases |decls|
  {
    if decls != [] {
      MarkersStayOne(m, decls[..|decls| - 1]);
    }
  }

  /** Visiting one more declaration does not change what happened to the
      declarations visited before it. */
  lemma FlaggedAtPrefix(m: FunctionMap, decls: seq<FuncDecl>, i: nat)
    requires i < |decls| - 1
    ensures decls[..|decls| - 1][i] == decls[i]
    ensures FlaggedAt(m, decls[..|decls| - 1], i) == FlaggedAt(m, decls, i)
  {
    PrefixOfPrefix(decls, i);
  }

  /** The names recorded while visiting `decls`: those of the declarations
      whose visit did not report. */
  ghost function RecordedNames(m: FunctionMap, decls: seq<FuncDecl>): (r: set<string>)
  {
    set i | 0 <= i < |decls| && !FlaggedAt(m, decls, i) :: decls[i].name
  }

  lemma RecordedNamesStep(m: FunctionMap, decls: seq<FuncDecl>)
    requires decls != []
    ensures RecordedNames(m, decls) ==
      RecordedNames(m, decls[..|decls| - 1])
        + (if FlaggedAt(m, decls, |decls| - 1) then {} else {decls[|decls| - 1].name})
  {
    var n := |decls| - 1;
    var before := decls[..n];
    var last: set<string> := if FlaggedAt(m, decls, n) then {} else {decls[n].name};
    forall x | x in RecordedNames(m, decls)
      ensures x in RecordedNames(m, before) + last
    {
      var i :| 0 <= i < |decls| && !FlaggedAt(m, decls, i) && decls[i].name == x;
      if i < n {
        FlaggedAtPrefix(m, decls, i);
      }
    }
    forall x | x in RecordedNames(m, before)
      ensures x in RecordedNames(m, decls)
    {
      var i :| 0 <= i < n && !FlaggedAt(m, before, i) && before[i].name == x;
      FlaggedAtPrefix(m, decls, i);
    }
  }

  /** After a run the registry holds exactly the names it held before plus
      the names of the declarations whose visit did not report. */
  lemma {:induction false} RegistryKeys(m: FunctionMap, decls: seq<FuncDecl>)
    ensures MapAfter(m, decls).Keys == m.Keys + RecordedNames(m, decls)
    decreases |decls|
  {
    if decls != [] {
      var n := |decls| - 1;
      RegistryKeys(m, decls[..n]);
      RecordedNamesStep(m, decls);
    }
  }

  /** There are at most as many findings as declarations visited. */
  lemma {:induction false} FindingsBounded(m: FunctionMap, decls: seq<FuncDecl>)
    ensures |FindingsOf(m, decls)| <= |decls|
    decreases |decls|
  {
    if decls != [] {
      FindingsBounded(m, decls[..|decls| - 1]);
    }
  }

  /** The k-th finding is the location of the declaration at the k-th
      flagged index, and that declaration's visit reports. */
  lemma {:induction false} FindingsAtFlaggedIndices(m: FunctionMap, decls: seq<FuncDecl>)
    ensures |FlaggedIndices(m, decls)| == |FindingsOf(m, decls)|
    ensures forall k :: 0 <= k < |FlaggedIndices(m, decls)| ==>
      FlaggedIndices(m, decls)[k] < |decls| &&
      FindingsOf(m, decls)[k] == decls[FlaggedIndices(m, decls)[k]].loc &&
      FlaggedAt(m, decls, FlaggedIndices(m, decls)[k])
    decreases |decls|
  {
    if decls != [] {
      var n := |decls| - 1;
      var before := decls[..n];
      FindingsAtFlaggedIndices(m, before);
      var idx0 := FlaggedIndices(m, before);
      var fs0 := FindingsOf(m, before);
      var flagged := IsCandidate(MapAfter(m, before), decls[n]);
      assert FlaggedIndices(m, decls) == idx0 + (if flagged then [n] else []);
      assert FindingsOf(m, decls) == fs0 + (if flagged then [decls[n].loc] else []);
      forall k | 0 <= k < |idx0|
        ensures idx0[k] < n
        ensures fs0[k] == decls[idx0[k]].loc
        ensures FlaggedAt(m, decls, idx0[k])
      {
        FlaggedAtPrefix(m, decls, idx0[k]);
      }
    }
  }

  /** The flagged indices are strictly increasing: findings come in visit order. */
  lemma {:induction false} FlaggedIndicesIncreasing(m: FunctionMap, decls: seq<FuncDecl>)
    ensures forall k :: 0 <= k < |FlaggedIndices(m, decls)| ==> FlaggedIndices(m, decls)[k] < |decls|
    ensures forall k1, k2 :: 0 <= k1 < k2 < |FlaggedIndices(m, decls)| ==>
      FlaggedIndices(m, decls)[k1] < FlaggedIndices(m, decls)[k2]
    decreases |decls|
  {
    if decls != [] {
      var n := |decls| - 1;
      var before := decls[..n];
      FlaggedIndicesIncreasing(m, before);
      var idx0 := FlaggedIndices(m, before);
      var flagged := IsCandidate(MapAfter(m, before), decls[n]);
      assert FlaggedIndices(m, decls) == idx0 + (if flagged then [n] else []);
    }
  }

  /** Every declaration whose visit reports appears among the flagged indices. */
  lemma {:induction false} FlaggedIndicesComplete(m: FunctionMap, decls: seq<FuncDecl>)
    ensures forall i :: 0 <= i < |decls| && FlaggedAt(m, decls, i) ==> i in FlaggedIndices(m, decls)
    decreases |decls|
  {
    if decls != [] {
      var n := |decls| - 1;
      var before := decls[..n];
      FlaggedIndicesComplete(m, before);
      var idx0 := FlaggedIndices(m, before);
      var flagged := IsCandidate(MapAfter(m, before), decls[n]);
      assert FlaggedIndices(m, decls) == idx0 + (if flagged then [n] else []);
      forall i | 0 <= i < |decls| && FlaggedAt(m, decls, i)
        ensures i in FlaggedIndices(m, decls)
      {
        if i < n {
          FlaggedAtPrefix(m, decls, i);
        }
      }
    }
  }

  /** Visiting one more declaration: the registry takes one `Step` and a
      finding is appended exactly when that declaration is a candidate. */
  lemma RunSnoc(m: FunctionMap, decls: seq<FuncDecl>, d: FuncDecl)
    ensures MapAfter(m, decls + [d]) == Step(MapAfter(m, decls), d)
    ensures FindingsOf(m, decls + [d]) ==
      FindingsOf(m, decls) + (if IsCandidate(MapAfter(m, decls), d) then [d.loc] else [])
  {
  }

  /** Running two sequences one after the other, with the registry carried
      over, is the same as running their concatenation: the registry persists
      from one run into the next and the findings are concatenated. */
  lemma {:induction false} RunsCompose(m: FunctionMap, a: seq<FuncDecl>, b: seq<FuncDecl>)
    ensures MapAfter(m, a + b) == MapAfter(MapAfter(m, a), b)
    ensures FindingsOf(m, a + b) == FindingsOf(m, a) + FindingsOf(MapAfter(m, a), b)
    decreases |b|
  {
    if b == [] {
      assert a + b == a;
    } else {
      var n := |b| - 1;
      RunsCompose(m, a, b[..n]);
      assert (a + b)[..|a + b| - 1] == a + b[..n];
      assert (a + b)[|a + b| - 1] == b[n];
    }
  }

  /** A declaration whose name is recorded in the registry before the run is
      never reported during the run. */
  lemma {:induction false} KnownNameNeverFlagged(m: FunctionMap, decls: seq<FuncDecl>, i: nat)
    requires i < |decls| && decls[i].name in m
    ensures !FlaggedAt(m, decls, i)
  {
    RegistryGrows(m, decls[..i]);
  }

  /** Once a visit records a name, no later declaration of that name is
      reported: a prototype seen earlier suppresses the definition. */
  lemma {:induction false} RecordedNameSuppresses(m: FunctionMap, decls: seq<FuncDecl>, i: nat, j: nat)
    requires i < j < |decls|
    requires decls[i].name == decls[j].name
    requires !FlaggedAt(m, decls, i)
    ensures !FlaggedAt(m, decls, j)
  {
    var upto := decls[..i + 1];
    var between := decls[i + 1..j];
    assert upto[..i] == decls[..i];
    assert MapAfter(m, upto) == Step(MapAfter(m, decls[..i]), decls[i]);
    assert decls[i].name in MapAfter(m, upto);
    assert decls[..j] == upto + between;
    RunsCompose(m, upto, between);
    RegistryGrows(MapAfter(m, upto), between);
  }

  /** A reported definition is not recorded, so a later declaration of the
      same name that is itself a candidate is reported as well. */
  lemma {:induction false} ReportedNameNotSuppressed(m: FunctionMap, d: FuncDecl, e: FuncDecl)
    requires IsCandidate(m, d)
    requires e.name == d.name && IsValidDef(e) && IsNotStatic(e) && CouldBeStatic(e)
    ensures FindingsOf(m, [d, e]) == [d.loc, e.loc]
  {
    assert [d, e][..1] == [d];
    assert [d][..0] == [];
    assert MapAfter(m, [d]) == m;
    assert FindingsOf(m, [d]) == [d.loc];
    assert IsCandidate(MapAfter(m, [d]), e);
  }

  // ---------------------------------------------------------------------
  // The process-wide analysis state
  // ---------------------------------------------------------------------

  /** The plugin's state: the registry, which lives for the whole process and
      is shared by every translation unit the process analyses. */
  class StaticFinder {
    var functionMap: FunctionMap

    ghost predicate Valid()
      reads this
    {
      AllMarked(functionMap)
    }

    /** The registry is empty when the process starts. */
    constructor ()
      ensures Valid() && functionMap == map[]
    {
      functionMap := map[];
    }

    /** One visit of a function declaration. `reported` says whether a
        warning is reported at `d.loc`; `keepGoing` is what the visitor hands
        back to the traversal. */
    method Visit(d: FuncDecl) returns (reported: bool, keepGoing: bool)
      requires Valid()
      modifies this
      ensures Valid()
      ensures reported == IsCandidate(old(functionMap), d)
      ensures functionMap == Step(old(functionMap), d)
      ensures reported ==> functionMap == old(functionMap)
      ensures !reported ==> functionMap.Keys == old(functionMap).Keys + {d.name}
      ensures keepGoing
    {
      var isValidDef := d.isDefinition && d.hasBody;
      var isNotDeclared := d.name !in functionMap;
      var isNotStatic := !d.isStatic;
      var couldBeStatic := d.inMainFile && !d.isMain;
      if isValidDef && isNotDeclared && isNotStatic && couldBeStatic {
        reported := true;
      } else {
        reported := false;
        if d.name !in functionMap {
          functionMap := functionMap[d.name := 1];
        }
      }
      keepGoing := true;
    }

    /** Visit every declaration of one translation unit in traversal order,
        returning the locations reported. The registry is not reset. */
    method HandleTranslationUnit(decls: seq<FuncDecl>) returns (findings: seq<Location>)
      requires Valid()
      modifies this
      ensures Valid()
      ensures functionMap == MapAfter(old(functionMap), decls)
      ensures findings == FindingsOf(old(functionMap), decls)
      ensures |findings| <= |decls|
      ensures old(functionMap).Keys <= functionMap.Keys
    {
      ghost var start := functionMap;
      findings := [];
      var i := 0;
      while i < |decls|
        invariant 0 <= i <= |decls|
        invariant functionMap == MapAfter(start, decls[..i])
        invariant findings == FindingsOf(start, decls[..i])
        invariant Valid()
      {
        assert decls[..i + 1][..i] == decls[..i];
        var reported, keepGoing := Visit(decls[i]);
        if reported {
          findings := findings + [decls[i].loc];
        }
        i := i + 1;
        if !keepGoing {
          break;
        }
      }
      assert decls[..|decls|] == decls;
      FindingsBounded(start, decls);
      RegistryGrows(start, decls);
    }
  }
}
