/**
 * The resolver's input (a parsed `targets.json`) and output (the node tree)
 * of src/targets-model.ts.
 */
module Nodes {
  import opened Options
  import opened JsMaps

  /** An environment: a `Map<string, string>` in insertion order. */
  type Env = OrderedMap<string>

  /** The workspace folder, of which the resolver uses the URI (as a key) and the name. */
  datatype Workspace = Workspace(uri: string, name: string)

  /** The `debugger` object of the document, passed through unchanged. */
  datatype Debugger = Debugger(kind: string)

  /**
   * One entry of a `targets` array. Every field may be absent. Which of the
   * three shapes an entry has is decided by `targetsGroup` first, then by
   * `argsGroup`; an entry with neither is a plain target.
   */
  datatype TargetDef = TargetDef(
    id: Option<string>,
    name: Option<string>,
    args: Option<string>,
    env: Option<Env>,
    launcher: Option<string>,
    cwd: Option<string>,
    visible: Option<bool>,
    targetsGroup: Members,
    argsGroup: Option<seq<string>>)

  /** The `targets_group` field: absent, or an array of nested entries. */
  datatype Members = Absent | Present(defs: seq<TargetDef>)

  /** The parsed document. */
  datatype Document = Document(
    debugger: Option<Debugger>,
    variables: Option<Env>,
    env: Option<Env>,
    args: Option<string>,
    targets: Option<seq<TargetDef>>)

  /**
   * The node classes: `TargetNode` and `GroupNode` (both `ExecutabeNode`s,
   * hence `nodeArgs`) and `RunConfigNode`, sharing the `TreeNode` fields
   * `name` and `visible`. `name`, `nodeArgs` and `id` are assigned from
   * fields that may be undefined, so they are optional here.
   */
  datatype Node =
    | Target(name: Option<string>, visible: bool, nodeArgs: Option<string>,
             id: Option<string>, launcher: string, args: string, env: Env,
             workspace: Option<Workspace>, cwd: string)
    | Group(name: Option<string>, visible: bool, nodeArgs: Option<string>, children: seq<Node>)
    | RunConfig(name: Option<string>, visible: bool)

  /** `new TargetNode()`: the field initialisers of TreeNode, ExecutabeNode and TargetNode. */
  function NewTargetNode(): (n: Node)
    ensures n.Target?
  {
    Target(Some("?"), true, Some(""), Some("?"), "cmake", "", [], None, ".")
  }

  /** `new GroupNode()` */
  function NewGroupNode(): (n: Node)
    ensures n.Group?
  {
    Group(Some("?"), true, Some(""), [])
  }

  /** `new RunConfigNode()` */
  function NewRunConfigNode(): (n: Node)
    ensures n.RunConfig?
  {
    RunConfig(Some("?"), true)
  }

  /** `node.visible = v`: the same node with only its visibility changed. */
  function WithVisible(n: Node, v: bool): (r: Node)
    ensures r.visible == v
    ensures r.Target? <==> n.Target?
    ensures r.Group? <==> n.Group?
    ensures n.Target? ==> r == Target(n.name, v, n.nodeArgs, n.id, n.launcher, n.args, n.env, n.workspace, n.cwd)
    ensures n.Group? ==> r == Group(n.name, v, n.nodeArgs, n.children)
    ensures n.RunConfig? ==> r == RunConfig(n.name, v)
  {
    match n
    case Target(name, _, nodeArgs, id, launcher, args, env, workspace, cwd) =>
      Target(name, v, nodeArgs, id, launcher, args, env, workspace, cwd)
    case Group(name, _, nodeArgs, children) => Group(name, v, nodeArgs, children)
    case RunConfig(name, _) => RunConfig(name, v)
  }
}
