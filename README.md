# Targets resolver and tree query, in Dafny

This project models the core of a VS Code extension that launches build
targets described in a `targets.json` file:

- **The targets resolver** (`TargetsModel` in `src/targets-model.ts`). It
  turns the parsed document into a tree of group and target nodes. Every
  target carries args and env merged from all the scopes that enclose it:
  first the document's globals, then each enclosing group, then the target.
  - `mergeArgs` trims both strings and joins the non-blank ones with one space.
  - `mergeEnv` copies the parent map and lets the child's keys override.
  - Each entry of a `targets` array has one of three shapes:
    - a `targets_group` opens a nested scope;
    - an `args_group` expands into one target per variant string;
    - anything else is a plain target.
  - The model keeps a sticky `firstTarget` and a `workspaces` map. Each read
    replaces one entry of that map.
- **The child query** (`getChildren` in `src/targets-provider.ts`).
  - It puts the run-configuration node first at the root.
  - It flattens a single workspace to its children.
  - It drops invisible nodes.

The files:

- `options.dfy`: `Option`, standing for JavaScript's `undefined`.
- `js_strings.dfy`: `String.prototype.trim`, using ECMAScript's whitespace
  and line-terminator set, and `Array.prototype.join`.
- `js_maps.dfy`: a JavaScript `Map` with string keys, as an insertion-ordered
  list with distinct keys. `set` replaces a value in place or appends a new key.
- `nodes.dfy`: the parsed document (`TargetDef`, `Document`) and the node
  classes with their field initialisers (`Node`).
- `merge.dfy`: `mergeArgs` and `mergeEnv`, and their left folds over a chain
  of scopes.
- `resolution.dfy`: what the parse builds, as functions of the definitions
  (`ResolveDef`, `ResolveArray`, `WorkspaceNode`). It also defines which
  node is the first target.
- `model.dfy`: the `TargetsModel` class. Its methods follow the source's
  loops and are each proved equal to the functions above.
- `scopes.dfy`: how a target's args and env follow from the chain of
  definitions enclosing it, and what an `args_group` expands into.
- `provider.dfy`: the `TargetTreeProvider` class and `getChildren`.
- `sample.dfy`: one small document resolved completely.

Nodes are values (`datatype Node`), because nothing in the core mutates a
node after the parse has built it, except the `visible` override. The two
classes whose fields the source reassigns are Dafny classes:
`TargetsModel` and `TargetTreeProvider`.

Two behaviours of the code are worth knowing before reading the contracts:

- **`firstTarget` is never reset between reads.** `readTargetsModel` never
  clears it, and `createTargetNode` only sets it while it is unset
  (src/targets-model.ts:308-309). So it keeps the first target ever
  created, even after that workspace has been re-read.
  `ReadTargetsModel` states this (`old(firstTarget).Some? ==> firstTarget == old(firstTarget)`).
- **An entry's shape is decided by field presence alone.** `targets_group`
  is tested first, then `args_group`; anything else is a plain target
  (src/targets-model.ts:177-191). An entry that has both fields is a group,
  and its `args_group` is ignored.

`firstTarget` is an alias of a node in the source's tree. While
`firstTarget` is still unset, when the first target a read creates is a
plain target whose definition sets `visible`, the override at
src/targets-model.ts:197-198 changes the very object that `firstTarget`
refers to. With value nodes, `ParseTargetsArray` re-points `firstTarget` at
the overridden node in that case. As a result, `firstTarget` is the first
target, in pre-order and exactly as stored, of the first read that created
one (`Sticky(old(firstTarget), FirstTargetIn(...))`). Later reads leave it
alone, and their overrides do not touch it.

The methods that change state (`ReadTargetsModel`, `ParseTargetsArray`,
`ParseTargetsGroup`, `ParseArgsGroup`, `CreateTargetNode` and `SetModel`)
state their new state in terms of `old`. The parse methods are each proved
equal to a function of the definitions, and the properties are proved about
those functions.

## Model

| member | source | states |
|---|---|---|
| JsStrings.AsciiWhitespace | src/targets-model.ts:89-93 | the set of characters `trim` removes, restricted to ASCII, is exactly tab, line feed, vertical tab, form feed, carriage return and space |
| JsStrings.Trim | src/targets-model.ts:89-93 | the result of `trim` neither starts nor ends with whitespace |
| JsStrings.TrimStart | src/targets-model.ts:89-93 | leading whitespace removed: the result is a suffix of the input, everything cut off is whitespace, and the first kept character is not |
| JsStrings.TrimEnd | src/targets-model.ts:89-93 | trailing whitespace removed: the result is a prefix of the input, everything cut off is whitespace, and the last kept character is not |
| JsStrings.TrimCutsWhitespace | src/targets-model.ts:89-93 | everything `trim` cuts off, before the kept part and after it, is whitespace |
| JsStrings.TrimFixpoint | src/targets-model.ts:89-93 | trimming leaves a string unchanged exactly when it is already trimmed |
| JsStrings.BlankIffAllWhitespace | src/targets-model.ts:89-93 | a string counts as blank (`!s.trim()`) exactly when every character is whitespace |
| JsStrings.Join | src/targets-model.ts:95 | joining no parts gives "" and joining one part gives that part |
| JsStrings.JoinAppend | src/targets-model.ts:95 | joining two non-empty lists puts exactly one separator between them |
| JsMaps.Get | src/targets-model.ts:98-106 | `Map.prototype.get`, which the source does not call here: the lookup used to state what the merged map contains; it is undefined exactly when the key is absent |
| JsMaps.Values | src/targets-provider.ts:157 | `workspaces.values()` lists one value per entry, in insertion order |
| JsMaps.Set | src/targets-model.ts:103 | `set` maps the key to the new value and leaves every other key unchanged; an existing key keeps its position and a new key is appended |
| JsMaps.SetAll | src/targets-model.ts:100-105 | after copying and setting every child entry: a child key has the child's value, any other key the parent's; the parent's keys come first, then the child's new keys in order |
| JsMaps.SetAllPresent | src/targets-model.ts:100-105 | setting entries that are already present changes nothing |
| Nodes.NewTargetNode | src/targets-model.ts:16-55 | the contract states only that the new node is a target; its field initialisers (name and id "?", visible, nodeArgs "", launcher "cmake", args "", empty env, cwd ".") are in the body, and `Resolution.TargetNodeFor` states the ones the resolver keeps |
| Nodes.NewGroupNode | src/targets-model.ts:57-65 | the contract states only that the new node is a group; its initialisers (name "?", visible, nodeArgs "", no children) are in the body, and `Resolution.GroupNodeFor` states the ones the resolver keeps |
| Nodes.NewRunConfigNode | src/targets-model.ts:67-73 | the contract states only that the new node is a run-configuration node; its initialisers (name "?", visible) are in the body |
| Nodes.WithVisible | src/targets-model.ts:195-198 | assigning `visible` changes only `visible` and keeps the node's kind and all other fields |
| Merge.Word | src/targets-model.ts:89-93 | a scope contributes at most one word, and none exactly when it is blank |
| Merge.MergeArgs | src/targets-model.ts:85-96 | the result is trimmed; it is "" iff both inputs are blank; it is `trim(parent)` when the child is blank and `trim(child)` when the parent is blank; otherwise it is `trim(parent) + " " + trim(child)`, parent first |
| Merge.MergeArgsAssociative | src/targets-model.ts:85-96 | merging args is associative, so how the scopes are grouped does not matter |
| Merge.MergeEnv | src/targets-model.ts:98-106 | every child key maps to the child's value, every other key keeps the parent's value; the parent's keys keep their order, followed by the child's new keys |
| Merge.MergeEnvKeys | src/targets-model.ts:98-106 | the merged keys are exactly the union of the parent's and the child's keys |
| Merge.MergeEnvIdempotent | src/targets-model.ts:242 | merging the same child env a second time changes nothing |
| Merge.WordsAppend | src/targets-model.ts:85-96 | the words of two chains of scopes are the words of each, in order |
| Merge.FoldArgsSplit | src/targets-model.ts:214 | a target's args, split at any enclosing scope, are the words of the outer chain followed by the words of the inner chain, separated by single spaces |
| Merge.FoldArgsJoinsWords | src/targets-model.ts:140-151 | folding `mergeArgs` over a chain of scopes yields every non-blank scope's trimmed args, outermost first, separated by single spaces |
| Merge.FoldTwo | src/targets-model.ts:214 | folding over two scopes is two nested merges |
| Merge.FoldEnvTwo | src/targets-model.ts:215 | folding env over two scopes is two nested merges |
| Merge.FoldEnvSnoc | src/targets-model.ts:215 | adding an innermost scope to the chain merges it last |
| Merge.FoldEnvInnermost | src/targets-model.ts:306 | in the folded env, a key's value comes from the innermost scope that defines it, or from the starting env when no scope does |
| Resolution.ScopeOfDefinition | src/targets-model.ts:214-215 | the args and env a definition adds to its scope (its `args`, or "" when undefined; its `env` as a map, or an empty one): its own args and env when defined; when undefined, merging them leaves the inherited env unchanged and the inherited args only trimmed (the same expressions recur at lines 241-242 and 305-306) |
| Resolution.TargetNodeFor | src/targets-model.ts:280-312 | the target `createTargetNode` builds is visible, at cwd ".", carries the workspace, and copies id and nodeArgs from the definition |
| Resolution.TargetNodeDefaults | src/targets-model.ts:280-306 | a created target has these properties: it is visible, cwd is ".", and it carries the workspace; id and nodeArgs are copied from the definition; launcher defaults to "cmake"; name defaults to the id; args and env are merged onto the inherited ones |
| Resolution.GroupNodeFor | src/targets-model.ts:217-229 | a group node has these properties: it is visible, holds the given children, and copies nodeArgs from the definition; name is the definition's name, or "?????" when the name is undefined |
| Resolution.VariantDef | src/targets-model.ts:248-251 | the `structuredClone` handed to `createTargetNode` differs from the group's definition only in `args` (the variant) and `name` (the id) |
| Resolution.VariantNodes | src/targets-model.ts:246-253 | the variant loop yields exactly one target per variant |
| Resolution.VariantNodesAt | src/targets-model.ts:246-253 | the i-th expanded target is built from the copy of the group's definition that carries the i-th variant |
| Resolution.VariantNodesSnoc | src/targets-model.ts:246-253 | expanding one more variant appends its target |
| Resolution.BaseNode | src/targets-model.ts:177-191 | a `targets_group` entry gives a group with one child per nested definition; otherwise an `args_group` gives a group with one child per variant; anything else gives a target; the node is visible before any override |
| Resolution.ResolveDef | src/targets-model.ts:177-198 | the resolved node has the shape its fields select, and its `visible` is the definition's when defined and `true` otherwise |
| Resolution.ResolveArray | src/targets-model.ts:164-205 | `parseTargetsArray` yields one node per definition, and the i-th node is the i-th definition resolved under the inherited args and env |
| Resolution.ResolveArraySnoc | src/targets-model.ts:173-200 | resolving one more definition appends its node: one node per definition, in input order |
| Resolution.TargetsGroupChildren | src/targets-model.ts:214-220 | a nested group's children are its definitions resolved under the group's merged args and env |
| Resolution.OtherShapes | src/targets-model.ts:182-191 | an `args_group` entry resolves to its variants under the group's merged scope; a plain entry resolves to a target under the inherited scope |
| Resolution.WorkspaceNode | src/targets-model.ts:142-151 | the stored root is a visible group named after the workspace |
| Resolution.FirstTargetIndex | src/targets-model.ts:308-309 | the index of the first target: the node there is a target and none before it is; no index when there is no target |
| Resolution.FirstTargetIn | src/targets-model.ts:308-309 | the first target in pre-order is a target of the forest; there is none exactly when the forest holds no target |
| Resolution.FirstTargetInAppend | src/targets-model.ts:173-204 | the first target of two forests side by side is the first one's, unless it has none |
| Resolution.FirstTargetInSingle | src/targets-model.ts:177-191 | a target is its own first target; a group's first target is its children's |
| Model.TargetsModel.constructor | src/targets-model.ts:75-83 | a new model has no first target, debugger, variables or env, and no workspaces |
| Model.TargetsModel.ReadTargetsModel | src/targets-model.ts:135-153 | a document that yields no object changes nothing; otherwise debugger, variables and env are taken over (`{}` when undefined); the workspace's key maps to a new visible group named after the workspace, holding the resolved targets; every other key is unchanged; a first target already set stays set; the class invariant is kept |
| Model.TargetsModel.ParseTargetsArray | src/targets-model.ts:164-205 | returns exactly the resolution of each definition, in order; `firstTarget` becomes the first target of the result if it was unset |
| Model.TargetsModel.ParseTargetsGroup | src/targets-model.ts:207-232 | returns the group whose children are the nested definitions resolved under the merged args and env |
| Model.TargetsModel.ParseArgsGroup | src/targets-model.ts:234-278 | returns the group with one target per variant, in variant order, each built from the clone that carries that variant |
| Model.TargetsModel.CreateTargetNode | src/targets-model.ts:280-312 | returns the target for the definition; `firstTarget` is set to it only if it was unset |
| Model.WorkspaceEntriesAreGroups | src/targets-model.ts:153 | storing a group keeps every workspace entry a group |
| Scopes.ResolvedScopes | src/targets-model.ts:140-151 | every path through the definitions reaches a node; a plain definition becomes a target; a target's args are the left fold of `mergeArgs` and its env the left fold of `mergeEnv` over global, each enclosing group's scope, then its own |
| Scopes.NodesHaveChains | src/targets-model.ts:164-253 | every node of the resolved tree sits at a path that follows a chain of definitions: nested `targets_group` members, ending at a plain definition, a group, or an `args_group` variant |
| Scopes.EveryNodeAgrees | src/targets-model.ts:140-306 | every node of the resolved tree has a chain of enclosing definitions; a plain definition gives a target, and every target's args and env are the left folds of `mergeArgs` and `mergeEnv` over the globals, each enclosing group's scope, then its own |
| Scopes.ArgsGroupExpansion | src/targets-model.ts:241-253 | an `args_group` with N variants gives a group of exactly N targets in variant order; the i-th target has these fields: id and name equal to the group's id, nodeArgs the i-th variant, args `mergeArgs(mergeArgs(parent, group args), variant)`, env `mergeEnv(parent, group env)`, the group's launcher, and visible |
| Scopes.VariantTargetFacts | src/targets-model.ts:292-306 | a variant's target carries the group's merged env, because merging the cloned group env again changes nothing |
| Scopes.ChainCons | src/targets-model.ts:214-215 | entering a group starts the folds from the group's merged scope |
| Provider.Visible | src/targets-provider.ts:172 | the filter returns only visible nodes and never more nodes than it was given |
| Provider.VisibleMembers | src/targets-provider.ts:172 | a node is in the filtered list exactly when it was in the list and is visible |
| Provider.VisibleAppend | src/targets-provider.ts:172 | filtering keeps order: filtering a concatenation filters each part |
| Provider.VisibleIdempotent | src/targets-provider.ts:172 | filtering twice is filtering once |
| Provider.ChildrenOf | src/targets-provider.ts:150-153 | a group's children, and nothing for any other node (the source's `children`, defaulting to an empty list) |
| Provider.RootCandidates | src/targets-provider.ts:150-158 | with one workspace, the root lists that workspace's children; otherwise it lists one node per workspace, the workspace groups in insertion order |
| Provider.TargetTreeProvider.constructor | src/targets-provider.ts:9-15 | a new provider has no model and a visible run-configuration node named "Debug" |
| Provider.TargetTreeProvider.SetModel | src/targets-provider.ts:21-23 | the provider shows the given model; the run-configuration node is unchanged |
| Provider.TargetTreeProvider.GetChildren | src/targets-provider.ts:140-173 | every node returned is visible. With no model the result is empty. For a group, the result is its visible children in order. For any other node the result is empty. At the root, the result holds exactly the visible nodes among the run-configuration node and the root candidates, with the run-configuration node first when it is visible |
| Provider.SingleWorkspaceRoot | src/targets-provider.ts:150-160 | with one workspace in a model whose invariant holds, the root shows the run-configuration node, then that workspace's visible children |
| Provider.SeveralWorkspacesRoot | src/targets-provider.ts:155-160 | with zero or several workspaces, the root shows the run-configuration node, then the visible workspace groups in insertion order |
| Provider.ExpandsFromRoot | src/targets-provider.ts:145-160 | a traversal of the tree starts at a node the root shows: the run-configuration node or a root candidate |
| Provider.ExpandedAt | src/targets-provider.ts:140-173 | every node a traversal reaches is visible, and each step goes from a group to one of its children; so a hidden group is never shown or expanded, and nothing beneath it is reached through it |
| Provider.HiddenNeverReached | src/targets-provider.ts:172 | a node that is not visible never appears in a traversal |
| Sample.SampleResolves | src/targets-model.ts:135-312 | the worked document: target `x` gets args "--g" and env {A: 1, B: 2}, and the group `G` holds target `y` with args "--g --y" and env {A: 1} |

## Left out

- Reading the document and parsing its JSONC text are not part of this
  model (`openTextDocument`, `jsonc.parse`, `parseTree` and
  `findNodeAtLocation`, src/targets-model.ts:112-133). Neither are the error
  messages (lines 128, 155-161). The model starts from the parsed value.
  - `None` stands for text that `jsonc.parse` turns into `undefined` or
    `null`. Reading its `debugger` field then throws (line 135), and the
    error is reported before anything is assigned, so nothing changes.
  - Any other parsed value that lacks the fields, such as a number, a
    string or an array, reads `undefined` for every field. It is
    `Some(Document(None, None, None, None, None))`, and the workspace is
    stored with an empty group.
  - A document that `jsonc-parser` turns into a partial object is resolved
    like any other. That library is not part of this model.
- JSON values of the wrong type are not modelled: `null` entries, a
  non-array truthy `targets_group`, non-string args. `TargetDef` admits only
  well-typed optional fields. An exception thrown part-way through the
  parse, which would leave `debugger`, `variables`, `env` and `firstTarget`
  partly assigned, is therefore not modelled either.
- `objectToMap` uses `Object.entries`, which lists integer-like keys first,
  in ascending order. An `Env` is taken in the order the parsed value gives.
- `TargetNode.arguments()` (src/targets-model.ts:46-49) has no caller in
  the modelled files. `mapToObject` (src/targets-model.ts:319-322) has no
  caller in these files either.
- `position`, `args_tooltip` and `env_tooltip` are never set by the resolver.
  The `workspace` folder is reduced to its URI (the map key) and its name.
- `getTreeItem`, its two item builders and the change-event emitter
  (src/targets-provider.ts:6-7, 17-19, 25-138) are UI rendering.
  `getParent` returns nothing and is not modelled.
- `src/extension.ts` and `src/terminal-manager.ts` are host glue, disk I/O
  and terminal handling. They are not part of this model.
- Object identity is not modelled, since nodes are values.
  - Editing a node's `nodeArgs` or `visible` after the parse would also
    change `firstTarget` in the source. These edits are not modelled.
  - `getChildren` returning the group's own array is not modelled either,
    since `filter` copies it before returning.
- `async`, and concurrent reads of the same workspace, are not modelled.
  The source has no synchronisation of its own.
