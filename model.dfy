/**
 * The `TargetsModel` class of src/targets-model.ts: the recursive parse that
 * builds the node tree, the sticky `firstTarget` pointer, and the
 * `workspaces` map that each read replaces an entry of.
 */
module Model {
  import opened Options
  import opened JsMaps
  import opened Nodes
  import opened Merge
  import opened Resolution

  // Sizes of definition trees, for the termination of the recursive parse.

  function Sum(s: seq<nat>): nat
  {
    if s == [] then 0 else s[0] + Sum(s[1..])
  }

  function DefSize(d: TargetDef): nat
    decreases d
  {
    1 + match d.targetsGroup
        case Present(defs) => |defs| + Sum(seq(|defs|, i requires 0 <= i < |defs| => DefSize(defs[i])))
        case Absent => 0
  }

  function ListSize(defs: seq<TargetDef>): nat
  {
    |defs| + Sum(seq(|defs|, i requires 0 <= i < |defs| => DefSize(defs[i])))
  }

  lemma {:induction false} SumAtLeast(s: seq<nat>, i: nat)
    requires i < |s|
    ensures s[i] <= Sum(s)
  {
    if i > 0 {
      SumAtLeast(s[1..], i - 1);
    }
  }

  lemma DefSizeBelowList(defs: seq<TargetDef>, i: nat)
    requires i < |defs|
    ensures DefSize(defs[i]) < ListSize(defs)
  {
    SumAtLeast(seq(|defs|, j requires 0 <= j < |defs| => DefSize(defs[j])), i);
  }

  class TargetsModel {
    var firstTarget: Option<Node>
    var debugger: Option<Debugger>
    var variables: Option<Env>
    var env: Option<Env>
    var workspaces: OrderedMap<Node>

    /** `firstTarget` is a target node and every workspace entry is a group node. */
    ghost predicate Valid()
      reads this
    {
      && (firstTarget.Some? ==> firstTarget.value.Target?)
      && AllGroups(workspaces)
    }

    constructor ()
      ensures Valid()
      ensures firstTarget == None && debugger == None && variables == None && env == None
      ensures workspaces == []
    {
      firstTarget, debugger, variables, env := None, None, None, None;
      workspaces := [];
    }

    /**
     * `readTargetsModel` from the point where the document has been parsed.
     * `None` stands for a document that yields no object: reading its first
     * field throws, the error is reported, and nothing is assigned.
     */
    method ReadTargetsModel(content: Option<Document>, ws: Workspace)
      requires Valid()
      modifies this
      ensures Valid()
      ensures content.None? ==> unchanged(this)
      ensures content.Some? ==>
        && debugger == content.value.debugger
        && variables == Some(content.value.variables.GetOr([]))
        && env == Some(content.value.env.GetOr([]))
        && workspaces == Set(old(workspaces), ws.uri, WorkspaceNode(content.value, ws))
        && firstTarget == Sticky(old(firstTarget), FirstTargetIn(WorkspaceNode(content.value, ws).children))
      ensures content.Some? ==> Get(workspaces, ws.uri) == Some(WorkspaceNode(content.value, ws))
      ensures forall k :: k != ws.uri ==> Get(workspaces, k) == Get(old(workspaces), k)
      ensures old(firstTarget).Some? ==> firstTarget == old(firstTarget)
    {
      if content.None? {
        return;
      }
      var targetsContent := content.value;
      debugger := targetsContent.debugger;
      variables := Some(targetsContent.variables.GetOr([]));
      env := Some(targetsContent.env.GetOr([]));
      var globalArgs := targetsContent.args.GetOr("");
      var group := NewGroupNode();
      var children := ParseTargetsArray(targetsContent.targets.GetOr([]), globalArgs, env.value, ws);
      assert firstTarget.Some? ==> firstTarget.value.Target?;
      group := Group(name := Some(ws.name), visible := group.visible, nodeArgs := group.nodeArgs, children := children);
      workspaces := Set(workspaces, ws.uri, group);
      WorkspaceEntriesAreGroups(old(workspaces), ws.uri, group);
    }

    /**
     * `parseTargetsArray`: one node per definition, in order, each built by
     * the parse its shape calls for, with `visible` copied over when the
     * definition has it.
     */
    method ParseTargetsArray(targetsDef: seq<TargetDef>, parentArgs: string, parentEnv: Env, ws: Workspace)
      returns (result: seq<Node>)
      modifies this`firstTarget
      ensures result == ResolveArray(targetsDef, parentArgs, parentEnv, ws)
      ensures firstTarget == Sticky(old(firstTarget), FirstTargetIn(result))
      decreases ListSize(targetsDef), 1
    {
      result := [];
      var i := 0;
      while i < |targetsDef|
        invariant 0 <= i <= |targetsDef|
        invariant result == ResolveArray(targetsDef[..i], parentArgs, parentEnv, ws)
        invariant firstTarget == Sticky(old(firstTarget), FirstTargetIn(result))
      {
        var targetDef := targetsDef[i];
        var wasUnset := firstTarget.None?;
        var node: Node;
        if targetDef.targetsGroup.Present? {
          DefSizeBelowList(targetsDef, i);
          node := ParseTargetsGroup(targetDef, parentArgs, parentEnv, ws);
          TargetsGroupChildren(targetDef, parentArgs, parentEnv, ws);
        } else if targetDef.argsGroup.Some? {
          node := ParseArgsGroup(targetDef, parentArgs, parentEnv, ws);
          OtherShapes(targetDef, parentArgs, parentEnv, ws);
        } else {
          node := CreateTargetNode(targetDef, parentArgs, parentEnv, ws);
          OtherShapes(targetDef, parentArgs, parentEnv, ws);
        }
        assert node == BaseNode(targetDef, parentArgs, parentEnv, ws);
        FirstTargetInSingle(node);
        if targetDef.visible.Some? {
          node := WithVisible(node, targetDef.visible.value);
          // In the source `firstTarget` may be this very node object, so it sees the override too.
          if wasUnset && node.Target? {
            firstTarget := Some(node);
          }
        }
        FirstTargetInSingle(node);
        FirstTargetInAppend(result, [node]);
        ResolveArraySnoc(targetsDef, i, parentArgs, parentEnv, ws);
        result := result + [node];
        i := i + 1;
      }
      assert targetsDef[..i] == targetsDef;
    }

    /** `parseTargetsGroup`: a group node whose children are parsed in the group's merged scope. */
    method ParseTargetsGroup(groupDef: TargetDef, parentArgs: string, parentEnv: Env, ws: Workspace)
      returns (node: Node)
      requires groupDef.targetsGroup.Present?
      modifies this`firstTarget
      ensures node == GroupNodeFor(groupDef, ResolveArray(groupDef.targetsGroup.defs,
        MergeArgs(parentArgs, ScopeArgs(groupDef)), MergeEnv(parentEnv, ScopeEnv(groupDef)), ws))
      ensures firstTarget == Sticky(old(firstTarget), FirstTargetIn(node.children))
      decreases DefSize(groupDef), 0
    {
      var groupArgs := MergeArgs(parentArgs, ScopeArgs(groupDef));
      var groupEnv := MergeEnv(parentEnv, ScopeEnv(groupDef));
      var n := NewGroupNode();
      var children := ParseTargetsArray(groupDef.targetsGroup.defs, groupArgs, groupEnv, ws);
      var name := if groupDef.name.Some? then groupDef.name else Some("?????");
      node := Group(name := name, visible := n.visible, nodeArgs := groupDef.args, children := children);
    }

    /** `parseArgsGroup`: a group node with one target per variant string, in order. */
    method ParseArgsGroup(groupDef: TargetDef, parentArgs: string, parentEnv: Env, ws: Workspace)
      returns (node: Node)
      requires groupDef.argsGroup.Some?
      modifies this`firstTarget
      ensures node == GroupNodeFor(groupDef, VariantNodes(groupDef, groupDef.argsGroup.value,
        MergeArgs(parentArgs, ScopeArgs(groupDef)), MergeEnv(parentEnv, ScopeEnv(groupDef)), ws))
      ensures firstTarget == Sticky(old(firstTarget), FirstTargetIn(node.children))
    {
      var groupArgs := MergeArgs(parentArgs, ScopeArgs(groupDef));
      var groupEnv := MergeEnv(parentEnv, ScopeEnv(groupDef));
      var variants := groupDef.argsGroup.value;
      var children: seq<Node> := [];
      var i := 0;
      while i < |variants|
        invariant 0 <= i <= |variants|
        invariant children == VariantNodes(groupDef, variants[..i], groupArgs, groupEnv, ws)
        invariant firstTarget == Sticky(old(firstTarget), FirstTargetIn(children))
      {
        var targetDef := groupDef.(args := Some(variants[i]), name := groupDef.id);
        var child := CreateTargetNode(targetDef, groupArgs, groupEnv, ws);
        FirstTargetInSingle(child);
        FirstTargetInAppend(children, [child]);
        VariantNodesSnoc(groupDef, variants, i, groupArgs, groupEnv, ws);
        children := children + [child];
        i := i + 1;
      }
      assert variants[..i] == variants;
      var n := NewGroupNode();
      var name := if groupDef.name.Some? then groupDef.name else Some("?????");
      node := Group(name := name, visible := n.visible, nodeArgs := groupDef.args, children := children);
    }

    /** `createTargetNode`: the target node for one definition; it becomes `firstTarget` if none is set yet. */
    method CreateTargetNode(targetDef: TargetDef, parentArgs: string, parentEnv: Env, ws: Workspace)
      returns (node: Node)
      modifies this`firstTarget
      ensures node == TargetNodeFor(targetDef, parentArgs, parentEnv, ws)
      ensures firstTarget == Sticky(old(firstTarget), Some(node))
    {
      var n := NewTargetNode();
      var launcher := n.launcher;
      if targetDef.launcher.Some? {
        launcher := targetDef.launcher.value;
      }
      var name := if targetDef.name.Some? then targetDef.name else targetDef.id;
      node := Target(
        name := name,
        visible := n.visible,
        nodeArgs := targetDef.args,
        id := targetDef.id,
        launcher := launcher,
        args := MergeArgs(parentArgs, ScopeArgs(targetDef)),
        env := MergeEnv(parentEnv, ScopeEnv(targetDef)),
        workspace := Some(ws),
        cwd := n.cwd);
      if firstTarget.None? {
        firstTarget := Some(node);
      }
    }
  }

  /** Every entry of a workspaces map is a group node. */
  ghost predicate AllGroups(m: OrderedMap<Node>)
  {
    forall i :: 0 <= i < |m| ==> m[i].1.Group?
  }

  lemma WorkspaceEntriesAreGroups(m: OrderedMap<Node>, k: string, g: Node)
    requires g.Group? && AllGroups(m)
    ensures AllGroups(Set(m, k, g))
  {
    if m != [] && m[0].0 != k {
      WorkspaceEntriesAreGroups(m[1..], k, g);
    }
  }
}
