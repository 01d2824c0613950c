/**
 * A worked document: global env and args, one plain target and one
 * nested group.
 */
module Sample {
  import opened Options
  import opened JsStrings
  import opened JsMaps
  import opened Nodes
  import opened Merge
  import opened Resolution

  function X(): TargetDef
  {
    TargetDef(Some("x"), None, None, Some([("B", "2")]), None, None, None, Absent, None)
  }

  function Y(): TargetDef
  {
    TargetDef(Some("y"), None, Some("--y"), None, None, None, None, Absent, None)
  }

  function G(): TargetDef
  {
    TargetDef(None, Some("G"), None, None, None, None, None, Present([Y()]), None)
  }

  function SampleDocument(): Document
  {
    Document(None, None, Some([("A", "1")]), Some("--g"), Some([X(), G()]))
  }

  lemma TrimLiterals()
    ensures Trim("") == "" && Trim("--g") == "--g" && Trim("--y") == "--y"
  {
    TrimFixpoint("");
    TrimFixpoint("--g");
    TrimFixpoint("--y");
  }

  lemma ArgsSteps()
    ensures MergeArgs("--g", "") == "--g"
    ensures MergeArgs("--g", "--y") == "--g --y"
  {
    TrimLiterals();
    assert "--g" + " " + "--y" == "--g --y";
  }

  lemma EnvSteps()
    ensures MergeEnv([("A", "1")], [("B", "2")]) == [("A", "1"), ("B", "2")]
    ensures MergeEnv([("A", "1")], []) == [("A", "1")]
  {
    assert [("B", "2")][1..] == [];
    assert Set([("A", "1")], "B", "2") == [("A", "1"), ("B", "2")];
  }

  /** Target `x` (env {B: 2}) under args "--g" and env {A: 1}. */
  lemma SampleX(ws: Workspace)
    ensures ResolveDef(X(), "--g", [("A", "1")], ws)
      == Target(Some("x"), true, None, Some("x"), "cmake", "--g", [("A", "1"), ("B", "2")], Some(ws), ".")
  {
    ArgsSteps();
    EnvSteps();
    OtherShapes(X(), "--g", [("A", "1")], ws);
  }

  /** Target `y` (args "--y") under args "--g" and env {A: 1}. */
  lemma SampleY(ws: Workspace)
    ensures ResolveDef(Y(), "--g", [("A", "1")], ws)
      == Target(Some("y"), true, Some("--y"), Some("y"), "cmake", "--g --y", [("A", "1")], Some(ws), ".")
  {
    ArgsSteps();
    EnvSteps();
    OtherShapes(Y(), "--g", [("A", "1")], ws);
  }

  /** A group with no args and no env of its own resolves its members under the inherited scope. */
  lemma ScopelessGroup(d: TargetDef, a: string, e: Env, ws: Workspace)
    requires d.targetsGroup.Present? && d.targetsGroup.defs != []
    requires MergeArgs(a, ScopeArgs(d)) == a && MergeEnv(e, ScopeEnv(d)) == e
    ensures ResolveDef(d, a, e, ws).children[0] == ResolveDef(d.targetsGroup.defs[0], a, e, ws)
  {
    TargetsGroupChildren(d, a, e, ws);
  }

  lemma SampleGChildren(ws: Workspace)
    ensures ResolveDef(G(), "--g", [("A", "1")], ws).children == [ResolveDef(Y(), "--g", [("A", "1")], ws)]
  {
    ArgsSteps();
    EnvSteps();
    ScopelessGroup(G(), "--g", [("A", "1")], ws);
    TargetsGroupChildren(G(), "--g", [("A", "1")], ws);
  }

  /** Group `G`, holding target `y`, under args "--g" and env {A: 1}. */
  lemma SampleG(ws: Workspace)
    ensures ResolveDef(G(), "--g", [("A", "1")], ws)
      == Group(Some("G"), true, None,
           [Target(Some("y"), true, Some("--y"), Some("y"), "cmake", "--g --y", [("A", "1")], Some(ws), ".")])
  {
    SampleGChildren(ws);
    SampleY(ws);
    TargetsGroupChildren(G(), "--g", [("A", "1")], ws);
  }

  /**
   * With env {A: 1} and args "--g" at the top: target `x` (env {B: 2})
   * gets args "--g" and env {A: 1, B: 2}; group `G` holds target `y`
   * (args "--y"), which gets args "--g --y" and env {A: 1}.
   */
  lemma SampleResolves(ws: Workspace)
    ensures var top := WorkspaceNode(SampleDocument(), ws).children;
      && |top| == 2
      && top[0] == Target(Some("x"), true, None, Some("x"), "cmake", "--g", [("A", "1"), ("B", "2")], Some(ws), ".")
      && top[1] == Group(Some("G"), true, None,
           [Target(Some("y"), true, Some("--y"), Some("y"), "cmake", "--g --y", [("A", "1")], Some(ws), ".")])
  {
    var top := WorkspaceNode(SampleDocument(), ws).children;
    assert top == ResolveArray([X(), G()], "--g", [("A", "1")], ws);
    SampleX(ws);
    SampleG(ws);
  }
}
