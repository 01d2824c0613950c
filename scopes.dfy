/**
 * Where a resolved target's args and env come from: the chain of
 * definitions that enclose it, folded with `mergeArgs` and `mergeEnv`
 * from the document's globals inward.
 */
module Scopes {
  import opened Options
  import opened JsMaps
  import opened Nodes
  import opened JsStrings
  import opened Merge
  import opened Resolution

  /** The node reached from `nodes` by following child indices, outermost first. */
  function NodeAt(nodes: seq<Node>, path: seq<nat>): Option<Node>
    decreases |path|
  {
    if path == [] || path[0] >= |nodes| then None
    else if |path| == 1 then Some(nodes[path[0]])
    else if nodes[path[0]].Group? then NodeAt(nodes[path[0]].children, path[1..])
    else None
  }

  /**
   * The definitions whose scopes enclose the node at `path`, outermost
   * first and ending with the node's own. A step into an `args_group` picks
   * a variant, whose definition is the copy `parseArgsGroup` makes.
   */
  function DefChain(defs: seq<TargetDef>, path: seq<nat>): Option<seq<TargetDef>>
    decreases |path|
  {
    if path == [] || path[0] >= |defs| then None
    else
      var d := defs[path[0]];
      if |path| == 1 then Some([d])
      else match d.targetsGroup
        case Present(inner) =>
          (match DefChain(inner, path[1..])
           case Some(c) => Some([d] + c)
           case None => None)
        case Absent =>
          if d.argsGroup.Some? && |path| == 2 && path[1] < |d.argsGroup.value|
          then Some([d, VariantDef(d, d.argsGroup.value[path[1]])])
          else None
  }

  /** The args each definition of a chain adds. */
  function ChainArgs(c: seq<TargetDef>): (r: seq<string>)
    ensures |r| == |c|
  {
    if c == [] then [] else [ScopeArgs(c[0])] + ChainArgs(c[1..])
  }

  /** The env each definition of a chain adds. */
  function ChainEnvs(c: seq<TargetDef>): (r: seq<Env>)
    ensures |r| == |c|
  {
    if c == [] then [] else [ScopeEnv(c[0])] + ChainEnvs(c[1..])
  }

  /** `d` is a plain target definition: neither a `targets_group` nor an `args_group`. */
  predicate Plain(d: TargetDef)
  {
    d.targetsGroup.Absent? && d.argsGroup.None?
  }

  /**
   * What the chain `c` of definitions says about the node `n` found for it:
   * there is one, a plain definition gives a target, and a target's args
   * and env are the folds of the chain's scopes onto the inherited ones.
   */
  predicate ScopesAgree(n: Option<Node>, c: seq<TargetDef>, parentArgs: string, parentEnv: Env)
  {
    && n.Some? && c != []
    && (Plain(c[|c| - 1]) ==> n.value.Target?)
    && (n.value.Target? ==>
          && n.value.args == FoldArgs(parentArgs, ChainArgs(c))
          && n.value.env == FoldEnv(parentEnv, ChainEnvs(c)))
  }

  /**
   * Every path through the definitions leads to a node of the resolved
   * tree, and that node agrees with the scopes that enclose it.
   */
  lemma {:induction false} ResolvedScopes(defs: seq<TargetDef>, path: seq<nat>, parentArgs: string, parentEnv: Env, ws: Workspace)
    requires DefChain(defs, path).Some?
    ensures ScopesAgree(NodeAt(ResolveArray(defs, parentArgs, parentEnv, ws), path), DefChain(defs, path).value, parentArgs, parentEnv)
    decreases |path|
  {
    var nodes := ResolveArray(defs, parentArgs, parentEnv, ws);
    var d := defs[path[0]];
    var node := nodes[path[0]];
    if |path| == 1 {
      assert DefChain(defs, path) == Some([d]);
      assert NodeAt(nodes, path) == Some(node);
      SingleScope(d, parentArgs, parentEnv, ws);
    } else if d.targetsGroup.Present? {
      var inner := d.targetsGroup.defs;
      var groupArgs := MergeArgs(parentArgs, ScopeArgs(d));
      var groupEnv := MergeEnv(parentEnv, ScopeEnv(d));
      var c' := DefChain(inner, path[1..]).value;
      assert DefChain(defs, path) == Some([d] + c');
      TargetsGroupChildren(d, parentArgs, parentEnv, ws);
      WithVisibleKeepsChildren(d, parentArgs, parentEnv, ws);
      assert NodeAt(nodes, path) == NodeAt(ResolveArray(inner, groupArgs, groupEnv, ws), path[1..]);
      ResolvedScopes(inner, path[1..], groupArgs, groupEnv, ws);
      ChainCons(d, c', parentArgs, parentEnv);
    } else {
      assert d.argsGroup.Some? && |path| == 2 && path[1] < |d.argsGroup.value|;
      assert DefChain(defs, path) == Some([d, VariantDef(d, d.argsGroup.value[path[1]])]);
      VariantScope(d, path[1], parentArgs, parentEnv, ws);
      NodeAtTwo(nodes, path);
    }
  }

  /**
   * The converse of `ResolvedScopes`: every node of the resolved tree sits
   * at a path that follows a chain of definitions.
   */
  lemma {:induction false} NodesHaveChains(defs: seq<TargetDef>, path: seq<nat>, parentArgs: string, parentEnv: Env, ws: Workspace)
    requires NodeAt(ResolveArray(defs, parentArgs, parentEnv, ws), path).Some?
    ensures DefChain(defs, path).Some?
    decreases |path|
  {
    var nodes := ResolveArray(defs, parentArgs, parentEnv, ws);
    var d := defs[path[0]];
    if |path| > 1 {
      var children := nodes[path[0]].children;
      assert NodeAt(children, path[1..]).Some?;
      if d.targetsGroup.Present? {
        TargetsGroupChildren(d, parentArgs, parentEnv, ws);
        NodesHaveChains(d.targetsGroup.defs, path[1..], MergeArgs(parentArgs, ScopeArgs(d)), MergeEnv(parentEnv, ScopeEnv(d)), ws);
      } else if d.argsGroup.Some? {
        OtherShapes(d, parentArgs, parentEnv, ws);
        WithVisibleKeepsChildren(d, parentArgs, parentEnv, ws);
        VariantChild(d, path[1], parentArgs, parentEnv, ws);
        if |path| != 2 {
          assert false;
        }
      } else {
        SingleScope(d, parentArgs, parentEnv, ws);
        assert false;
      }
    }
  }

  /**
   * Every node of the resolved tree agrees with the scopes that enclose it:
   * every target's args and env are the folds over the document's globals,
   * each enclosing group's scope, then its own.
   */
  lemma EveryNodeAgrees(defs: seq<TargetDef>, path: seq<nat>, parentArgs: string, parentEnv: Env, ws: Workspace)
    requires NodeAt(ResolveArray(defs, parentArgs, parentEnv, ws), path).Some?
    ensures DefChain(defs, path).Some?
    ensures ScopesAgree(NodeAt(ResolveArray(defs, parentArgs, parentEnv, ws), path), DefChain(defs, path).value, parentArgs, parentEnv)
  {
    NodesHaveChains(defs, path, parentArgs, parentEnv, ws);
    ResolvedScopes(defs, path, parentArgs, parentEnv, ws);
  }

  lemma NodeAtTwo(nodes: seq<Node>, path: seq<nat>)
    requires |path| == 2 && path[0] < |nodes| && nodes[path[0]].Group? && path[1] < |nodes[path[0]].children|
    ensures NodeAt(nodes, path) == Some(nodes[path[0]].children[path[1]])
  {
    assert path[1..] == [path[1]];
  }

  /** The visibility override keeps a group's children. */
  lemma WithVisibleKeepsChildren(d: TargetDef, parentArgs: string, parentEnv: Env, ws: Workspace)
    requires d.targetsGroup.Present? || d.argsGroup.Some?
    ensures ResolveDef(d, parentArgs, parentEnv, ws).Group?
    ensures ResolveDef(d, parentArgs, parentEnv, ws).children == BaseNode(d, parentArgs, parentEnv, ws).children
  {
  }

  /** A one-definition chain: the definition resolved directly under the inherited scope. */
  lemma SingleScope(d: TargetDef, parentArgs: string, parentEnv: Env, ws: Workspace)
    ensures ScopesAgree(Some(ResolveDef(d, parentArgs, parentEnv, ws)), [d], parentArgs, parentEnv)
  {
    var n := ResolveDef(d, parentArgs, parentEnv, ws);
    assert ChainArgs([d]) == [ScopeArgs(d)];
    assert ChainEnvs([d]) == [ScopeEnv(d)];
    if n.Target? {
      TargetNodeDefaults(d, parentArgs, parentEnv, ws);
    }
  }

  /** Prepending a group's definition to a chain starts the folds from the group's merged scope. */
  lemma ChainCons(d: TargetDef, c: seq<TargetDef>, parentArgs: string, parentEnv: Env)
    ensures FoldArgs(parentArgs, ChainArgs([d] + c)) == FoldArgs(MergeArgs(parentArgs, ScopeArgs(d)), ChainArgs(c))
    ensures FoldEnv(parentEnv, ChainEnvs([d] + c)) == FoldEnv(MergeEnv(parentEnv, ScopeEnv(d)), ChainEnvs(c))
  {
    assert ([d] + c)[1..] == c;
  }

  /** The `i`-th child of an `args_group` is the target built from the `i`-th variant's copy. */
  lemma VariantChild(d: TargetDef, i: nat, parentArgs: string, parentEnv: Env, ws: Workspace)
    requires d.targetsGroup.Absent? && d.argsGroup.Some? && i < |d.argsGroup.value|
    ensures var n := ResolveDef(d, parentArgs, parentEnv, ws);
      && n.Group? && |n.children| == |d.argsGroup.value|
      && n.children[i] == TargetNodeFor(VariantDef(d, d.argsGroup.value[i]),
           MergeArgs(parentArgs, ScopeArgs(d)), MergeEnv(parentEnv, ScopeEnv(d)), ws)
  {
    var n := ResolveDef(d, parentArgs, parentEnv, ws);
    var groupArgs := MergeArgs(parentArgs, ScopeArgs(d));
    var groupEnv := MergeEnv(parentEnv, ScopeEnv(d));
    OtherShapes(d, parentArgs, parentEnv, ws);
    assert n.children == VariantNodes(d, d.argsGroup.value, groupArgs, groupEnv, ws);
    VariantNodesAt(d, d.argsGroup.value, i, groupArgs, groupEnv, ws);
  }

  lemma ChainTwo(d: TargetDef, v: TargetDef)
    ensures ChainArgs([d, v]) == [ScopeArgs(d), ScopeArgs(v)]
    ensures ChainEnvs([d, v]) == [ScopeEnv(d), ScopeEnv(v)]
  {
    assert [d, v][1..] == [v];
  }

  /** A target built under a group's merged scope agrees with the two-definition chain. */
  lemma TwoScopes(d: TargetDef, v: TargetDef, parentArgs: string, parentEnv: Env, ws: Workspace)
    ensures ScopesAgree(Some(TargetNodeFor(v, MergeArgs(parentArgs, ScopeArgs(d)), MergeEnv(parentEnv, ScopeEnv(d)), ws)),
                        [d, v], parentArgs, parentEnv)
  {
    var n := TargetNodeFor(v, MergeArgs(parentArgs, ScopeArgs(d)), MergeEnv(parentEnv, ScopeEnv(d)), ws);
    TargetNodeDefaults(v, MergeArgs(parentArgs, ScopeArgs(d)), MergeEnv(parentEnv, ScopeEnv(d)), ws);
    ChainTwo(d, v);
    FoldTwo(parentArgs, ScopeArgs(d), ScopeArgs(v));
    FoldEnvTwo(parentEnv, ScopeEnv(d), ScopeEnv(v));
  }

  /** The `i`-th variant of an `args_group` agrees with the chain of the group and its copy. */
  lemma VariantScope(d: TargetDef, i: nat, parentArgs: string, parentEnv: Env, ws: Workspace)
    requires d.targetsGroup.Absent? && d.argsGroup.Some? && i < |d.argsGroup.value|
    ensures var n := ResolveDef(d, parentArgs, parentEnv, ws);
      && n.Group? && i < |n.children|
      && ScopesAgree(Some(n.children[i]), [d, VariantDef(d, d.argsGroup.value[i])], parentArgs, parentEnv)
  {
    VariantChild(d, i, parentArgs, parentEnv, ws);
    TwoScopes(d, VariantDef(d, d.argsGroup.value[i]), parentArgs, parentEnv, ws);
  }

  /**
   * `parseArgsGroup` with variants v0 .. vN-1: a group of exactly N targets
   * in variant order. The i-th is named and identified by the group's id,
   * shows v_i as its own args, appends v_i to the group's merged args,
   * inherits the group's launcher, stays visible, and carries the group's
   * merged env (merging the group's env a second time changes nothing).
   */
  lemma ArgsGroupExpansion(d: TargetDef, parentArgs: string, parentEnv: Env, ws: Workspace)
    requires d.targetsGroup.Absent? && d.argsGroup.Some?
    ensures var n := ResolveDef(d, parentArgs, parentEnv, ws);
            var variants := d.argsGroup.value;
      && n.Group?
      && |n.children| == |variants|
      && forall i :: 0 <= i < |variants| ==> VariantTarget(n.children[i], d, variants[i], parentArgs, parentEnv)
  {
    var n := ResolveDef(d, parentArgs, parentEnv, ws);
    var variants := d.argsGroup.value;
    assert n.Group? && |n.children| == |variants|;
    forall i | 0 <= i < |variants|
      ensures VariantTarget(n.children[i], d, variants[i], parentArgs, parentEnv)
    {
      VariantChild(d, i, parentArgs, parentEnv, ws);
      VariantTargetFacts(d, variants[i], parentArgs, parentEnv, ws);
    }
  }

  /**
   * The target `parseArgsGroup` makes for `variant`: named and identified
   * by the group's id, showing the variant as its own args, with the
   * variant appended to the group's merged args, the group's merged env,
   * the group's launcher, and visible.
   */
  predicate VariantTarget(n: Node, d: TargetDef, variant: string, parentArgs: string, parentEnv: Env)
  {
    && n.Target?
    && n.id == d.id
    && n.name == d.id
    && n.nodeArgs == Some(variant)
    && n.args == MergeArgs(MergeArgs(parentArgs, ScopeArgs(d)), variant)
    && n.env == MergeEnv(parentEnv, ScopeEnv(d))
    && n.launcher == d.launcher.GetOr("cmake")
    && n.visible
  }

  lemma VariantTargetFacts(d: TargetDef, variant: string, parentArgs: string, parentEnv: Env, ws: Workspace)
    ensures VariantTarget(TargetNodeFor(VariantDef(d, variant), MergeArgs(parentArgs, ScopeArgs(d)), MergeEnv(parentEnv, ScopeEnv(d)), ws),
                          d, variant, parentArgs, parentEnv)
  {
    TargetNodeDefaults(VariantDef(d, variant), MergeArgs(parentArgs, ScopeArgs(d)), MergeEnv(parentEnv, ScopeEnv(d)), ws);
    MergeEnvIdempotent(parentEnv, ScopeEnv(d));
  }
}
