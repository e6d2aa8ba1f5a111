/**
 Concrete runs of the find-static analysis: the C fixture the plugin ships
 with, the effect of visit order, and the registry carried from one
 translation unit to the next. Locations are line numbers.
 */
module FindStaticScenarios {
  import opened FindStatic

  /** A definition with external linkage in the main file. */
  function ExternDef(name: string, line: Location): (d: FuncDecl)
  {
    FuncDecl(name, true, true, false, true, false, line)
  }

  /** A prototype in the main file of a function defined later in it. */
  function Prototype(name: string, isStatic: bool, line: Location): (d: FuncDecl)
  {
    FuncDecl(name, false, true, isStatic, true, false, line)
  }

  /** A prototype in an included header of a function that has a body. */
  function HeaderPrototype(name: string, line: Location): (d: FuncDecl)
  {
    FuncDecl(name, false, true, false, false, false, line)
  }

  /** The fixture test.c in traversal order, after the declarations coming
      from its headers. */
  function FixtureMainFile(): (decls: seq<FuncDecl>)
  {
    [ Prototype("print_msg_4", true, 12),
      ExternDef("print_msg", 17),
      ExternDef("print_msg_2", 25),
      FuncDecl("print_msg_3", true, true, true, true, false, 33),
      FuncDecl("print_msg_4", true, true, true, true, false, 41),
      FuncDecl("main", true, true, false, true, true, 49) ]
  }

  /** With no header declaring any of its functions, both external
      definitions of test.c are reported, and nothing else. */
  lemma FixtureWithoutHeaderDecls()
    ensures FindingsOf(map[], FixtureMainFile()) == [17, 25]
  {
    var f := FixtureMainFile();
    var s0: seq<FuncDecl> := [];
    var s1 := s0 + [f[0]];
    var s2 := s1 + [f[1]];
    var s3 := s2 + [f[2]];
    var s4 := s3 + [f[3]];
    var s5 := s4 + [f[4]];
    var m4 := map["print_msg_4" := 1];
    RunSnoc(map[], s0, f[0]);
    assert MapAfter(map[], s1) == m4 && FindingsOf(map[], s1) == [];
    RunSnoc(map[], s1, f[1]);
    assert MapAfter(map[], s2) == m4 && FindingsOf(map[], s2) == [17];
    RunSnoc(map[], s2, f[2]);
    assert MapAfter(map[], s3) == m4 && FindingsOf(map[], s3) == [17, 25];
    RunSnoc(map[], s3, f[3]);
    assert FindingsOf(map[], s4) == [17, 25];
    RunSnoc(map[], s4, f[4]);
    assert FindingsOf(map[], s5) == [17, 25];
    RunSnoc(map[], s5, f[5]);
    assert s5 + [f[5]] == f;
  }

  /** test.c visited with print_msg_2 already recorded: only print_msg is
      reported. */
  lemma FixtureAfterHeader()
    ensures FindingsOf(map["print_msg_2" := 1], FixtureMainFile()) == [17]
  {
    var f := FixtureMainFile();
    var m2 := map["print_msg_2" := 1];
    var s0: seq<FuncDecl> := [];
    var s1 := s0 + [f[0]];
    var s2 := s1 + [f[1]];
    var s3 := s2 + [f[2]];
    var s4 := s3 + [f[3]];
    var s5 := s4 + [f[4]];
    var m24 := m2["print_msg_4" := 1];
    RunSnoc(m2, s0, f[0]);
    assert MapAfter(m2, s1) == m24 && FindingsOf(m2, s1) == [];
    RunSnoc(m2, s1, f[1]);
    assert MapAfter(m2, s2) == m24 && FindingsOf(m2, s2) == [17];
    RunSnoc(m2, s2, f[2]);
    assert FindingsOf(m2, s3) == [17];
    RunSnoc(m2, s3, f[3]);
    assert FindingsOf(m2, s4) == [17];
    RunSnoc(m2, s4, f[4]);
    assert FindingsOf(m2, s5) == [17];
    RunSnoc(m2, s5, f[5]);
    assert s5 + [f[5]] == f;
  }

  /** A header prototype of print_msg_2 (as the fixture's comments expect
      test.h to hold) records the name before test.c is visited, so only
      print_msg is reported. */
  lemma FixtureWithHeaderPrototype(header: seq<FuncDecl>)
    requires header == [HeaderPrototype("print_msg_2", 3)]
    ensures FindingsOf(map[], header + FixtureMainFile()) == [17]
  {
    RunSnoc(map[], [], header[0]);
    assert [] + [header[0]] == header;
    assert MapAfter(map[], header) == map["print_msg_2" := 1];
    assert FindingsOf(map[], header) == [];
    RunsCompose(map[], header, FixtureMainFile());
    FixtureAfterHeader();
  }

  /** Visit order matters: a prototype before the definition suppresses it,
      the same two declarations in the other order report the definition. */
  lemma OrderSensitivity()
    ensures FindingsOf(map[], [Prototype("helper", false, 1), ExternDef("helper", 5)]) == []
    ensures FindingsOf(map[], [ExternDef("helper", 5), Prototype("helper", false, 1)]) == [5]
  {
  }

  /** Two translation units analysed by one process: the first records
      `helper` (it is static there), so the second unit's external definition
      of `helper` is not reported; a fresh process would report it. */
  method TwoTranslationUnits() returns (first: seq<Location>, second: seq<Location>, ownUnit: seq<Location>)
    ensures first == []
    ensures second == []
    ensures ownUnit == [7]
  {
    var unitA := [FuncDecl("helper", true, true, true, true, false, 3)];
    var unitB := [ExternDef("helper", 7)];
    assert unitA[..0] == [] && unitB[..0] == [];
    var finder := new StaticFinder();
    first := finder.HandleTranslationUnit(unitA);
    second := finder.HandleTranslationUnit(unitB);
    var other := new StaticFinder();
    ownUnit := other.HandleTranslationUnit(unitB);
  }
}
