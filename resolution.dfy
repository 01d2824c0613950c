/**
 * What `parseTargetsArray`, `parseTargetsGroup`, `parseArgsGroup` and
 * `createTargetNode` build, as functions of the definitions and the
 * inherited args and env; and which node ends up as the first target.
 */
module Resolution {
  import opened Options
  import opened JsMaps
  import opened Nodes
  import opened JsStrings
  import opened Merge

  /** `def.args || ""`: the args a definition adds to its scope. */
  function ScopeArgs(d: TargetDef): (r: string)
  {
    d.args.GetOr("")
  }

  /** `objectToMap(def.env || {})`: the env a definition adds to its scope. */
  function ScopeEnv(d: TargetDef): (r: Env)
  {
    d.env.GetOr([])
  }

  /**
   * A definition's own scope: its args and env when defined; when they are
   * not, merging it changes nothing but the trimming of the inherited args.
   */
  lemma ScopeOfDefinition(d: TargetDef, parentArgs: string, parentEnv: Env)
    ensures d.args.Some? ==> ScopeArgs(d) == d.args.value
    ensures d.env.Some? ==> ScopeEnv(d) == d.env.value
    ensures d.args.None? ==> MergeArgs(parentArgs, ScopeArgs(d)) == Trim(parentArgs)
    ensures d.env.None? ==> MergeEnv(parentEnv, ScopeEnv(d)) == parentEnv
  {
    TrimFixpoint("");
  }

  /**
   * The node `createTargetNode` builds for `d`: `id` and `nodeArgs` copied
   * as they are, `launcher` defaulting to "cmake", `name` to the id, `cwd`
   * left at ".", and args and env merged onto the inherited ones.
   */
  function TargetNodeFor(d: TargetDef, parentArgs: string, parentEnv: Env, ws: Workspace): (n: Node)
    ensures n.Target? && n.visible && n.cwd == "." && n.workspace == Some(ws)
    ensures n.id == d.id && n.nodeArgs == d.args
  {
    var n := NewTargetNode();
    Target(
      name := if d.name.Some? then d.name else d.id,
      visible := n.visible,
      nodeArgs := d.args,
      id := d.id,
      launcher := if d.launcher.Some? then d.launcher.value else n.launcher,
      args := MergeArgs(parentArgs, ScopeArgs(d)),
      env := MergeEnv(parentEnv, ScopeEnv(d)),
      workspace := Some(ws),
      cwd := n.cwd)
  }

  /** The defaults and merges `createTargetNode` applies. */
  lemma TargetNodeDefaults(d: TargetDef, parentArgs: string, parentEnv: Env, ws: Workspace)
    ensures var n := TargetNodeFor(d, parentArgs, parentEnv, ws);
      && n.Target? && n.visible && n.cwd == "." && n.workspace == Some(ws)
      && n.id == d.id && n.nodeArgs == d.args
      && (d.launcher.None? ==> n.launcher == "cmake")
      && (d.launcher.Some? ==> n.launcher == d.launcher.value)
      && (d.name.None? ==> n.name == d.id)
      && (d.name.Some? ==> n.name == d.name)
      && n.args == MergeArgs(parentArgs, ScopeArgs(d))
      && n.env == MergeEnv(parentEnv, ScopeEnv(d))
  {
  }

  /** The group node for `d` with the given children: `name` defaults to "?????". */
  function GroupNodeFor(d: TargetDef, children: seq<Node>): (n: Node)
    ensures n.Group? && n.visible && n.children == children && n.nodeArgs == d.args
    ensures d.name.None? ==> n.name == Some("?????")
    ensures d.name.Some? ==> n.name == d.name
  {
    var n := NewGroupNode();
    Group(name := if d.name.Some? then d.name else Some("?????"), visible := n.visible,
          nodeArgs := d.args, children := children)
  }

  /**
   * The definition `parseArgsGroup` hands to `createTargetNode` for one
   * variant: a copy of the group's definition with `args` replaced by the
   * variant and `name` by the id.
   */
  function VariantDef(d: TargetDef, variant: string): (v: TargetDef)
    ensures v.args == Some(variant) && v.name == d.id
    ensures v.id == d.id && v.env == d.env && v.launcher == d.launcher && v.cwd == d.cwd
    ensures v.visible == d.visible && v.targetsGroup == d.targetsGroup && v.argsGroup == d.argsGroup
  {
    d.(args := Some(variant), name := d.id)
  }

  /** `f` applied to each element, in order. */
  function MapSeq<A, B>(f: A -> B, xs: seq<A>): (r: seq<B>)
    ensures |r| == |xs|
  {
    if xs == [] then [] else MapSeq(f, xs[..|xs| - 1]) + [f(xs[|xs| - 1])]
  }

  lemma {:induction false} MapSeqAt<A, B>(f: A -> B, xs: seq<A>, i: nat)
    requires i < |xs|
    ensures MapSeq(f, xs)[i] == f(xs[i])
    decreases |xs|
  {
    var init := xs[..|xs| - 1];
    if i < |init| {
      MapSeqAt(f, init, i);
      assert init[i] == xs[i];
    }
  }

  lemma MapSeqSnoc<A, B>(f: A -> B, xs: seq<A>, i: nat)
    requires i < |xs|
    ensures MapSeq(f, xs[..i + 1]) == MapSeq(f, xs[..i]) + [f(xs[i])]
  {
    assert xs[..i + 1][..i] == xs[..i];
  }

  /** The children `parseArgsGroup` creates: one target per variant, in order. */
  function VariantNodes(d: TargetDef, variants: seq<string>, groupArgs: string, groupEnv: Env, ws: Workspace): (r: seq<Node>)
    ensures |r| == |variants|
  {
    MapSeq(v => TargetNodeFor(VariantDef(d, v), groupArgs, groupEnv, ws), variants)
  }

  /** The `i`-th target is built from the `i`-th variant. */
  lemma VariantNodesAt(d: TargetDef, variants: seq<string>, i: nat, groupArgs: string, groupEnv: Env, ws: Workspace)
    requires i < |variants|
    ensures VariantNodes(d, variants, groupArgs, groupEnv, ws)[i] == TargetNodeFor(VariantDef(d, variants[i]), groupArgs, groupEnv, ws)
  {
    MapSeqAt(v => TargetNodeFor(VariantDef(d, v), groupArgs, groupEnv, ws), variants, i);
  }

  /**
   * The node one definition resolves to before its `visible` override:
   * the shape is chosen by `targets_group` first, then `args_group`.
   */
  function BaseNode(d: TargetDef, parentArgs: string, parentEnv: Env, ws: Workspace): (n: Node)
    ensures n.visible
    ensures d.targetsGroup.Present? ==> n.Group? && |n.children| == |d.targetsGroup.defs|
    ensures d.targetsGroup.Absent? && d.argsGroup.Some? ==> n.Group? && |n.children| == |d.argsGroup.value|
    ensures d.targetsGroup.Absent? && d.argsGroup.None? ==> n.Target?
    decreases d, 0
  {
    match d.targetsGroup
    case Present(defs) =>
      var groupArgs := MergeArgs(parentArgs, ScopeArgs(d));
      var groupEnv := MergeEnv(parentEnv, ScopeEnv(d));
      GroupNodeFor(d, seq(|defs|, i requires 0 <= i < |defs| => ResolveDef(defs[i], groupArgs, groupEnv, ws)))
    case Absent =>
      if d.argsGroup.Some? then
        GroupNodeFor(d, VariantNodes(d, d.argsGroup.value, MergeArgs(parentArgs, ScopeArgs(d)), MergeEnv(parentEnv, ScopeEnv(d)), ws))
      else
        TargetNodeDefaults(d, parentArgs, parentEnv, ws);
        TargetNodeFor(d, parentArgs, parentEnv, ws)
  }

  /** The node one definition resolves to, visibility override included. */
  function ResolveDef(d: TargetDef, parentArgs: string, parentEnv: Env, ws: Workspace): (n: Node)
    ensures n.visible == d.visible.GetOr(true)
    ensures d.targetsGroup.Present? ==> n.Group? && |n.children| == |d.targetsGroup.defs|
    ensures d.targetsGroup.Absent? && d.argsGroup.Some? ==> n.Group? && |n.children| == |d.argsGroup.value|
    ensures d.targetsGroup.Absent? && d.argsGroup.None? ==> n.Target?
    decreases d, 1
  {
    var node := BaseNode(d, parentArgs, parentEnv, ws);
    if d.visible.Some? then WithVisible(node, d.visible.value) else node
  }

  /** The nodes a `targets` array resolves to: one per definition, in order. */
  function ResolveArray(defs: seq<TargetDef>, parentArgs: string, parentEnv: Env, ws: Workspace): (r: seq<Node>)
    ensures |r| == |defs|
    ensures forall i :: 0 <= i < |defs| ==> r[i] == ResolveDef(defs[i], parentArgs, parentEnv, ws)
  {
    seq(|defs|, i requires 0 <= i < |defs| => ResolveDef(defs[i], parentArgs, parentEnv, ws))
  }

  /** A sequence that agrees with `p` and then ends in `last` is `p + [last]`. */
  lemma SnocEquality<T>(p: seq<T>, last: T, l: seq<T>)
    requires |l| == |p| + 1 && l[|p|] == last
    requires forall j :: 0 <= j < |p| ==> l[j] == p[j]
    ensures l == p + [last]
  {
  }

  /** Resolving one more definition appends its node. */
  lemma ResolveArraySnoc(defs: seq<TargetDef>, i: nat, parentArgs: string, parentEnv: Env, ws: Workspace)
    requires i < |defs|
    ensures ResolveArray(defs[..i + 1], parentArgs, parentEnv, ws)
         == ResolveArray(defs[..i], parentArgs, parentEnv, ws) + [ResolveDef(defs[i], parentArgs, parentEnv, ws)]
  {
    var l := ResolveArray(defs[..i + 1], parentArgs, parentEnv, ws);
    var p := ResolveArray(defs[..i], parentArgs, parentEnv, ws);
    forall j | 0 <= j < i
      ensures l[j] == p[j]
    {
      assert defs[..i + 1][j] == defs[..i][j];
    }
    SnocEquality(p, ResolveDef(defs[i], parentArgs, parentEnv, ws), l);
  }

  /** Expanding one more variant appends its target. */
  lemma VariantNodesSnoc(d: TargetDef, variants: seq<string>, i: nat, groupArgs: string, groupEnv: Env, ws: Workspace)
    requires i < |variants|
    ensures VariantNodes(d, variants[..i + 1], groupArgs, groupEnv, ws)
         == VariantNodes(d, variants[..i], groupArgs, groupEnv, ws) + [TargetNodeFor(VariantDef(d, variants[i]), groupArgs, groupEnv, ws)]
  {
    MapSeqSnoc(v => TargetNodeFor(VariantDef(d, v), groupArgs, groupEnv, ws), variants, i);
  }

  /** A nested group's children are its definitions resolved under the group's merged args and env. */
  lemma TargetsGroupChildren(d: TargetDef, parentArgs: string, parentEnv: Env, ws: Workspace)
    requires d.targetsGroup.Present?
    ensures BaseNode(d, parentArgs, parentEnv, ws)
         == GroupNodeFor(d, ResolveArray(d.targetsGroup.defs, MergeArgs(parentArgs, ScopeArgs(d)), MergeEnv(parentEnv, ScopeEnv(d)), ws))
    ensures ResolveDef(d, parentArgs, parentEnv, ws).children
         == ResolveArray(d.targetsGroup.defs, MergeArgs(parentArgs, ScopeArgs(d)), MergeEnv(parentEnv, ScopeEnv(d)), ws)
  {
  }

  /** The other two shapes: an `args_group` expands into its variants, anything else is a plain target. */
  lemma OtherShapes(d: TargetDef, parentArgs: string, parentEnv: Env, ws: Workspace)
    requires d.targetsGroup.Absent?
    ensures d.argsGroup.Some? ==>
      BaseNode(d, parentArgs, parentEnv, ws)
      == GroupNodeFor(d, VariantNodes(d, d.argsGroup.value, MergeArgs(parentArgs, ScopeArgs(d)), MergeEnv(parentEnv, ScopeEnv(d)), ws))
    ensures d.argsGroup.None? ==> BaseNode(d, parentArgs, parentEnv, ws) == TargetNodeFor(d, parentArgs, parentEnv, ws)
  {
  }

  /** The root group `readTargetsModel` stores for a workspace. */
  function WorkspaceNode(doc: Document, ws: Workspace): (n: Node)
    ensures n.Group? && n.name == Some(ws.name) && n.visible
  {
    var n := NewGroupNode();
    Group(name := Some(ws.name), visible := n.visible, nodeArgs := n.nodeArgs,
          children := ResolveArray(doc.targets.GetOr([]), doc.args.GetOr(""), doc.env.GetOr([]), ws))
  }

  // Pre-order traversal and the first target

  function Concat<T>(ss: seq<seq<T>>): seq<T>
  {
    if ss == [] then [] else ss[0] + Concat(ss[1..])
  }

  /** A node followed by all of its descendants, depth first. */
  function Flatten(n: Node): seq<Node>
    decreases n
  {
    [n] + if n.Group? then Concat(seq(|n.children|, i requires 0 <= i < |n.children| => Flatten(n.children[i]))) else []
  }

  /** The pre-order listing of a forest. */
  function Preorder(ns: seq<Node>): seq<Node>
  {
    Concat(seq(|ns|, i requires 0 <= i < |ns| => Flatten(ns[i])))
  }

  /** The position of the first target node in `s`. */
  function FirstTargetIndex(s: seq<Node>): (r: Option<nat>)
    ensures r.Some? ==> r.value < |s| && s[r.value].Target?
    ensures r.Some? ==> forall j :: 0 <= j < r.value ==> !s[j].Target?
    ensures r.None? ==> forall j :: 0 <= j < |s| ==> !s[j].Target?
  {
    if s == [] then None
    else if s[0].Target? then Some(0)
    else match FirstTargetIndex(s[1..])
      case None => None
      case Some(i) => Some(i + 1)
  }

  /** The first target node in a pre-order traversal of the forest `ns`. */
  function FirstTargetIn(ns: seq<Node>): (r: Option<Node>)
    ensures r.Some? ==> r.value.Target? && r.value in Preorder(ns)
    ensures r.None? <==> forall n :: n in Preorder(ns) ==> !n.Target?
  {
    var s := Preorder(ns);
    match FirstTargetIndex(s)
    case None => None
    case Some(i) => Some(s[i])
  }

  /** `if (!this.firstTarget) this.firstTarget = node`, over a whole pass. */
  function Sticky(current: Option<Node>, found: Option<Node>): (r: Option<Node>)
  {
    if current.Some? then current else found
  }

  lemma {:induction false} ConcatAppend<T>(a: seq<seq<T>>, b: seq<seq<T>>)
    ensures Concat(a + b) == Concat(a) + Concat(b)
  {
    if a == [] {
      assert a + b == b;
    } else {
      assert (a + b)[0] == a[0];
      assert (a + b)[1..] == a[1..] + b;
      ConcatAppend(a[1..], b);
    }
  }

  lemma PreorderAppend(a: seq<Node>, b: seq<Node>)
    ensures Preorder(a + b) == Preorder(a) + Preorder(b)
  {
    var fa := seq(|a|, i requires 0 <= i < |a| => Flatten(a[i]));
    var fb := seq(|b|, i requires 0 <= i < |b| => Flatten(b[i]));
    assert seq(|a + b|, i requires 0 <= i < |a + b| => Flatten((a + b)[i])) == fa + fb;
    ConcatAppend(fa, fb);
  }

  lemma PreorderSingle(n: Node)
    ensures Preorder([n]) == Flatten(n)
  {
    assert seq(1, i requires 0 <= i < 1 => Flatten([n][i])) == [Flatten(n)];
    assert Concat([Flatten(n)]) == Flatten(n) + Concat([]);
  }

  lemma {:induction false} FirstTargetIndexAppend(a: seq<Node>, b: seq<Node>)
    ensures FirstTargetIndex(a + b) == match FirstTargetIndex(a)
      case Some(i) => Some(i)
      case None => match FirstTargetIndex(b) case Some(j) => Some(|a| + j) case None => None
  {
    if a == [] {
      assert a + b == b;
    } else {
      assert (a + b)[0] == a[0];
      if !a[0].Target? {
        assert (a + b)[1..] == a[1..] + b;
        FirstTargetIndexAppend(a[1..], b);
      }
    }
  }

  /** The first target of two forests side by side: the first one's, unless it has none. */
  lemma FirstTargetInAppend(a: seq<Node>, b: seq<Node>)
    ensures FirstTargetIn(a + b) == Sticky(FirstTargetIn(a), FirstTargetIn(b))
  {
    PreorderAppend(a, b);
    FirstTargetIndexAppend(Preorder(a), Preorder(b));
  }

  /** A target is its own first target; a group's first target is its children's. */
  lemma FirstTargetInSingle(n: Node)
    ensures n.Target? ==> FirstTargetIn([n]) == Some(n)
    ensures n.Group? ==> FirstTargetIn([n]) == FirstTargetIn(n.children)
  {
    PreorderSingle(n);
    if n.Group? {
      FirstTargetOfGroup(n);
    }
  }

  lemma FirstTargetOfGroup(n: Node)
    requires n.Group?
    requires Preorder([n]) == Flatten(n)
    ensures FirstTargetIn([n]) == FirstTargetIn(n.children)
  {
    var p := Preorder(n.children);
    assert Flatten(n) == [n] + p;
    FirstTargetIndexAppend([n], p);
    match FirstTargetIndex(p)
    case None =>
    case Some(j) =>
      assert ([n] + p)[1 + j] == p[j];
  }
}
