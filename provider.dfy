/**
 * The tree provider of src/targets-provider.ts: which nodes the tree view
 * is given for the root and for each expanded node.
 */
module Provider {
  import opened Options
  import opened JsMaps
  import opened Nodes
  import opened Model

  /** `nodes.filter(node => node.visible)` */
  function Visible(ns: seq<Node>): (r: seq<Node>)
    ensures |r| <= |ns|
    ensures forall n :: n in r ==> n.visible
  {
    if ns == [] then []
    else (if ns[0].visible then [ns[0]] else []) + Visible(ns[1..])
  }

  /** The filter keeps exactly the visible nodes. */
  lemma {:induction false} VisibleMembers(ns: seq<Node>, n: Node)
    ensures n in Visible(ns) <==> n in ns && n.visible
  {
    if ns != [] {
      VisibleMembers(ns[1..], n);
      assert ns == [ns[0]] + ns[1..];
    }
  }

  /** The filter keeps the original order: filtering a concatenation filters each part. */
  lemma {:induction false} VisibleAppend(a: seq<Node>, b: seq<Node>)
    ensures Visible(a + b) == Visible(a) + Visible(b)
  {
    if a == [] {
      assert a + b == b;
    } else {
      assert (a + b)[0] == a[0];
      assert (a + b)[1..] == a[1..] + b;
      VisibleAppend(a[1..], b);
    }
  }

  /** Nodes that are all visible pass through unchanged. */
  lemma {:induction false} VisibleAllVisible(ns: seq<Node>)
    requires forall i :: 0 <= i < |ns| ==> ns[i].visible
    ensures Visible(ns) == ns
  {
    if ns != [] {
      VisibleAllVisible(ns[1..]);
    }
  }

  /** Filtering twice is filtering once. */
  lemma VisibleIdempotent(ns: seq<Node>)
    ensures Visible(Visible(ns)) == Visible(ns)
  {
    var r := Visible(ns);
    forall i | 0 <= i < |r|
      ensures r[i].visible
    {
      assert r[i] in r;
    }
    VisibleAllVisible(r);
  }

  /** The children of a group, or nothing for any other node (`?.children || []`). */
  function ChildrenOf(n: Node): (r: seq<Node>)
    ensures n.Group? ==> r == n.children
    ensures !n.Group? ==> r == []
  {
    if n.Group? then n.children else []
  }

  /**
   * What the root shows before filtering: a single workspace is flattened
   * to its children; zero or several workspaces are shown as their group
   * nodes, in the order they were first stored.
   */
  function RootCandidates(workspaces: OrderedMap<Node>): (r: seq<Node>)
    ensures |workspaces| == 1 ==> r == ChildrenOf(workspaces[0].1)
    ensures |workspaces| != 1 ==> |r| == |workspaces| && forall i :: 0 <= i < |r| ==> r[i] == workspaces[i].1
  {
    if |workspaces| == 1 then ChildrenOf(workspaces[0].1) else Values(workspaces)
  }

  class TargetTreeProvider {
    var runConfigNode: Node
    var model: TargetsModel?

    /** A new provider: no model yet, and a run-configuration node named "Debug". */
    constructor ()
      ensures model == null
      ensures runConfigNode == RunConfig(Some("Debug"), true)
    {
      var n := NewRunConfigNode();
      runConfigNode := RunConfig(Some("Debug"), n.visible);
      model := null;
    }

    /** `setModel`: the provider shows `m` from now on; nothing else changes. */
    method SetModel(m: TargetsModel?)
      modifies this`model
      ensures model == m
      ensures runConfigNode == old(runConfigNode)
    {
      model := m;
    }

    /**
     * `getChildren`. `element == None` asks for the root. Without a model
     * there is nothing to show. At the root, the run-configuration node
     * comes first; a group shows its children; any other node has none.
     * Invisible nodes are dropped everywhere, and order is kept.
     */
    function GetChildren(element: Option<Node>): (r: seq<Node>)
      reads this, model
      ensures forall n :: n in r ==> n.visible
      ensures model == null ==> r == []
      ensures model != null && element.Some? && !element.value.Group? ==> r == []
      ensures model != null && element.Some? && element.value.Group? ==>
        && r == Visible(element.value.children)
        && forall n :: n in r <==> n in element.value.children && n.visible
      ensures model != null && element.None? ==>
        forall n :: n in r <==> (n == runConfigNode || n in RootCandidates(model.workspaces)) && n.visible
      ensures model != null && element.None? && runConfigNode.visible ==> |r| > 0 && r[0] == runConfigNode
    {
      if model == null then []
      else match element
        case None =>
          var nodes := [runConfigNode] + RootCandidates(model.workspaces);
          VisibleMembersAll(nodes);
          VisibleAppend([runConfigNode], RootCandidates(model.workspaces));
          Visible(nodes)
        case Some(e) =>
          if e.Group? then
            VisibleMembersAll(e.children);
            Visible(e.children)
          else []
    }
  }

  /** `VisibleMembers` for every node at once. */
  lemma VisibleMembersAll(ns: seq<Node>)
    ensures forall n :: n in Visible(ns) <==> n in ns && n.visible
  {
    forall n
      ensures n in Visible(ns) <==> n in ns && n.visible
    {
      VisibleMembers(ns, n);
    }
  }

  /**
   * At the root with exactly one workspace whose entry is a group, the
   * tree shows the run-configuration node (when visible) and then that
   * workspace's visible children, in order.
   */
  lemma SingleWorkspaceRoot(p: TargetTreeProvider)
    requires p.model != null && p.model.Valid() && |p.model.workspaces| == 1
    ensures p.GetChildren(None) == Visible([p.runConfigNode]) + Visible(p.model.workspaces[0].1.children)
  {
    assert p.model.workspaces[0].1.Group?;
    VisibleAppend([p.runConfigNode], p.model.workspaces[0].1.children);
  }

  /**
   * At the root with zero or several workspaces, the tree shows the
   * run-configuration node (when visible) and then the visible workspace
   * groups, in the order they were first stored.
   */
  lemma SeveralWorkspacesRoot(p: TargetTreeProvider)
    requires p.model != null && |p.model.workspaces| != 1
    ensures p.GetChildren(None) == Visible([p.runConfigNode]) + Visible(Values(p.model.workspaces))
  {
    VisibleAppend([p.runConfigNode], Values(p.model.workspaces));
  }

  /**
   * A sequence of expansions in the tree view: the first node is one the
   * root shows, and each further node is one its predecessor shows when
   * it is expanded.
   */
  ghost predicate Expands(p: TargetTreeProvider, path: seq<Node>)
    reads p, p.model
    decreases |path|
  {
    if |path| == 0 then false
    else if |path| == 1 then path[0] in p.GetChildren(None)
    else Expands(p, path[..|path| - 1]) && path[|path| - 1] in p.GetChildren(Some(path[|path| - 2]))
  }

  /**
   * A traversal starts at a node the root shows: the run-configuration
   * node or a root candidate.
   */
  lemma ExpandsFromRoot(p: TargetTreeProvider, path: seq<Node>)
    requires Expands(p, path)
    ensures p.model != null && path != []
    ensures path[0] == p.runConfigNode || path[0] in RootCandidates(p.model.workspaces)
  {
    ShownAtRoot(p, path);
    RootStep(p, path[0]);
  }

  lemma {:induction false} ShownAtRoot(p: TargetTreeProvider, path: seq<Node>)
    requires Expands(p, path)
    ensures path != [] && path[0] in p.GetChildren(None)
    decreases |path|
  {
    if |path| > 1 {
      ShownAtRoot(p, path[..|path| - 1]);
    }
  }

  /**
   * Whatever a traversal of the tree reaches is visible, and so is every
   * node expanded on the way to it; each step goes from a group to one of
   * its children. So a hidden group is never shown and never expanded,
   * and nothing beneath it is reached through it.
   */
  lemma {:induction false} ExpandedAt(p: TargetTreeProvider, path: seq<Node>, i: nat)
    requires Expands(p, path) && i < |path|
    ensures path[i].visible
    ensures i < |path| - 1 ==> path[i].Group? && path[i + 1] in path[i].children
    decreases |path|
  {
    if |path| == 1 {
      RootStep(p, path[0]);
    } else {
      var init := path[..|path| - 1];
      if i == |path| - 1 {
        ExpandStep(p, path[i - 1], path[i]);
      } else if i == |path| - 2 {
        ExpandedAt(p, init, i);
        ExpandStep(p, path[i], path[i + 1]);
      } else {
        ExpandedAt(p, init, i);
        assert init[i] == path[i] && init[i + 1] == path[i + 1];
      }
    }
  }

  /** A node shown at the root is visible and is the run-configuration node or a root candidate. */
  lemma RootStep(p: TargetTreeProvider, n: Node)
    requires n in p.GetChildren(None)
    ensures p.model != null && n.visible
    ensures n == p.runConfigNode || n in RootCandidates(p.model.workspaces)
  {
  }

  /** A node shown when `parent` is expanded is a visible child of the group `parent`. */
  lemma ExpandStep(p: TargetTreeProvider, parent: Node, child: Node)
    requires child in p.GetChildren(Some(parent))
    ensures p.model != null && parent.Group? && child in parent.children && child.visible
  {
  }

  /** A node that is not visible is never part of a traversal. */
  lemma HiddenNeverReached(p: TargetTreeProvider, path: seq<Node>, n: Node)
    requires Expands(p, path) && !n.visible
    ensures n !in path
  {
    if n in path {
      var i :| 0 <= i < |path| && path[i] == n;
      ExpandedAt(p, path, i);
    }
  }
}
