/**
 * The file-tree utilities of the editor (src/utils/fileUtils.ts) over the
 * recursive `FileNode` record of src/types/ide.ts.  A forest is a sequence of
 * nodes; a node's optional `children` array has its own datatype so that a
 * node's children stay structurally below the node.
 */
module FileTree {
  import opened Wrappers
  import opened Text

  datatype FileType = File | Folder

  /** `children?: FileNode[]`: absent (`undefined`) or an array, possibly empty. */
  datatype Children = Absent | Present(nodes: seq<FileNode>)

  /** `kind` is the record's `type` field (`type` is a Dafny keyword). */
  datatype FileNode = FileNode(
    id: string,
    name: string,
    kind: FileType,
    path: string,
    content: Option<string>,
    children: Children,
    parentId: Option<string>)

  function Kids(n: FileNode): seq<FileNode> {
    if n.children.Present? then n.children.nodes else []
  }

  // ---------------------------------------------------------------------------
  // Pre-order: a parent before its children, earlier siblings first.

  function Preorder(files: seq<FileNode>): seq<FileNode>
    decreases files
  {
    if files == [] then [] else PreorderNode(files[0]) + Preorder(files[1..])
  }

  function PreorderNode(n: FileNode): seq<FileNode>
    decreases n
  {
    [n] + (if n.children.Present? then Preorder(n.children.nodes) else [])
  }

  lemma PreorderCons(x: FileNode, rest: seq<FileNode>)
    ensures Preorder([x] + rest) == PreorderNode(x) + Preorder(rest)
  {
    assert ([x] + rest)[1..] == rest;
  }

  lemma {:induction false} PreorderAppend(a: seq<FileNode>, b: seq<FileNode>)
    ensures Preorder(a + b) == Preorder(a) + Preorder(b)
    decreases |a|
  {
    if a == [] {
      assert a + b == b;
    } else {
      assert a + b == [a[0]] + (a[1..] + b);
      PreorderCons(a[0], a[1..] + b);
      PreorderAppend(a[1..], b);
    }
  }

  lemma PreorderSnoc(a: seq<FileNode>, x: FileNode)
    ensures Preorder(a + [x]) == Preorder(a) + PreorderNode(x)
  {
    PreorderAppend(a, [x]);
    PreorderCons(x, []);
  }

  ghost predicate NoNodeWithId(files: seq<FileNode>, id: string) {
    forall n :: n in Preorder(files) ==> n.id != id
  }

  /** No node of a forest has the id when neither its first tree nor the rest has one. */
  lemma NoNodeWithIdCons(files: seq<FileNode>, id: string)
    requires files != []
    ensures NoNodeWithId(files, id) <==>
      files[0].id != id && NoNodeWithId(Kids(files[0]), id) && NoNodeWithId(files[1..], id)
  {
    assert files == [files[0]] + files[1..];
    PreorderCons(files[0], files[1..]);
    PreorderNodeKids(files[0]);
  }

  // ---------------------------------------------------------------------------
  // findNodeById / findNodeByPath

  /** The field a lookup compares: `id` for findNodeById, `path` for findNodeByPath. */
  datatype Key = ById | ByPath

  function KeyOf(n: FileNode, key: Key): string {
    match key
    case ById => n.id
    case ByPath => n.path
  }

  /** Index of the first node of `nodes` whose key is `value`, or `|nodes|` if there is none. */
  function FirstIndex(nodes: seq<FileNode>, key: Key, value: string): (k: nat)
    ensures k <= |nodes|
    ensures forall j :: 0 <= j < k ==> KeyOf(nodes[j], key) != value
    ensures k < |nodes| ==> KeyOf(nodes[k], key) == value
  {
    if nodes == [] then 0
    else if KeyOf(nodes[0], key) == value then 0
    else 1 + FirstIndex(nodes[1..], key, value)
  }

  lemma FirstIndexUnique(nodes: seq<FileNode>, key: Key, value: string, k: nat)
    requires k <= |nodes|
    requires forall j :: 0 <= j < k ==> KeyOf(nodes[j], key) != value
    requires k < |nodes| ==> KeyOf(nodes[k], key) == value
    ensures FirstIndex(nodes, key, value) == k
  {
  }

  lemma {:induction false} FirstIndexAppend(a: seq<FileNode>, b: seq<FileNode>, key: Key, value: string)
    ensures FirstIndex(a + b, key, value) ==
      if FirstIndex(a, key, value) < |a| then FirstIndex(a, key, value) else |a| + FirstIndex(b, key, value)
    decreases |a|
  {
    if a == [] {
      assert a + b == b;
    } else {
      HeadTailAppend(a, b);
      FirstIndexAppend(a[1..], b, key, value);
    }
  }

  lemma PreorderNodeKids(n: FileNode)
    ensures PreorderNode(n) == [n] + Preorder(Kids(n))
  {
  }

  lemma SplitAround<T>(s: seq<T>, i: nat)
    requires i < |s|
    ensures s == s[..i] + ([s[i]] + s[i + 1..])
  {
  }

  lemma PreorderSplit(before: seq<FileNode>, f: FileNode, after: seq<FileNode>)
    ensures Preorder(before + ([f] + after)) == Preorder(before) + ([f] + (Preorder(Kids(f)) + Preorder(after)))
  {
    PreorderAppend(before, [f] + after);
    PreorderCons(f, after);
    PreorderNodeKids(f);
    AppendAssoc([f], Preorder(Kids(f)), Preorder(after));
  }

  /** The pre-order of a forest around its `i`-th top-level node. */
  lemma PreorderAround(files: seq<FileNode>, i: nat)
    requires i < |files|
    ensures Preorder(files) == Preorder(files[..i]) + ([files[i]] + (Preorder(Kids(files[i])) + Preorder(files[i + 1..])))
  {
    SplitAround(files, i);
    PreorderSplit(files[..i], files[i], files[i + 1..]);
  }

  /** The pre-order answer of a lookup: the first match, or none. */
  function FirstInPreorder(files: seq<FileNode>, key: Key, value: string): (r: Option<FileNode>)
    ensures r.None? <==> forall n :: n in Preorder(files) ==> KeyOf(n, key) != value
    ensures r.Some? ==> KeyOf(r.value, key) == value && r.value in Preorder(files)
  {
    var ns := Preorder(files);
    var k := FirstIndex(ns, key, value);
    if k < |ns| then Some(ns[k]) else None
  }

  /** No match among the first `i` top-level trees. */
  ghost predicate NoMatchBefore(files: seq<FileNode>, i: nat, key: Key, value: string)
    requires i <= |files|
  {
    FirstIndex(Preorder(files[..i]), key, value) == |Preorder(files[..i])|
  }

  lemma FoundAt(files: seq<FileNode>, i: nat, key: Key, value: string)
    requires i < |files| && NoMatchBefore(files, i, key, value)
    requires KeyOf(files[i], key) == value
    ensures FirstInPreorder(files, key, value) == Some(files[i])
  {
    var before, rest := Preorder(files[..i]), [files[i]] + (Preorder(Kids(files[i])) + Preorder(files[i + 1..]));
    PreorderAround(files, i);
    FirstIndexAppend(before, rest, key, value);
    IndexAppend(before, rest, |before|);
  }

  /** A match inside `inner` is the first match of `before + [f] + inner + after` when `before` and `f` have none. */
  lemma FirstIndexPast(before: seq<FileNode>, f: FileNode, inner: seq<FileNode>, after: seq<FileNode>, key: Key, value: string)
    requires FirstIndex(before, key, value) == |before|
    requires KeyOf(f, key) != value
    requires FirstIndex(inner, key, value) < |inner|
    ensures var s, k := before + ([f] + (inner + after)), FirstIndex(inner, key, value);
      FirstIndex(s, key, value) == |before| + 1 + k < |s| && s[|before| + 1 + k] == inner[k]
  {
    var k := FirstIndex(inner, key, value);
    var mid := inner + after;
    var tail := [f] + mid;
    FirstIndexAppend(inner, after, key, value);
    assert FirstIndex([f], key, value) == 1;
    FirstIndexAppend([f], mid, key, value);
    FirstIndexAppend(before, tail, key, value);
    IndexAppend(inner, after, k);
    IndexAppend([f], mid, 1 + k);
    IndexAppend(before, tail, |before| + 1 + k);
  }

  lemma FoundBelow(files: seq<FileNode>, i: nat, key: Key, value: string)
    requires i < |files| && NoMatchBefore(files, i, key, value)
    requires KeyOf(files[i], key) != value
    requires FirstInPreorder(Kids(files[i]), key, value).Some?
    ensures FirstInPreorder(files, key, value) == FirstInPreorder(Kids(files[i]), key, value)
  {
    var f := files[i];
    var before, inner, after := Preorder(files[..i]), Preorder(Kids(f)), Preorder(files[i + 1..]);
    PreorderAround(files, i);
    FirstIndexPast(before, f, inner, after, key, value);
    var k := FirstIndex(inner, key, value);
    assert FirstInPreorder(Kids(f), key, value) == Some(inner[k]);
  }

  lemma NotFoundThrough(files: seq<FileNode>, i: nat, key: Key, value: string)
    requires i < |files| && NoMatchBefore(files, i, key, value)
    requires KeyOf(files[i], key) != value
    requires FirstInPreorder(Kids(files[i]), key, value).None?
    ensures NoMatchBefore(files, i + 1, key, value)
  {
    var f := files[i];
    assert files[..i + 1] == files[..i] + [f];
    PreorderSnoc(files[..i], f);
    PreorderNodeKids(f);
    FirstIndexAppend(Preorder(files[..i]), [f] + Preorder(Kids(f)), key, value);
    FirstIndexAppend([f], Preorder(Kids(f)), key, value);
  }

  /**
   * The loop of findNodeById / findNodeByPath: each node is compared before
   * its children are searched, and the first hit returns at once.
   */
  method FindNode(files: seq<FileNode>, key: Key, value: string) returns (r: Option<FileNode>)
    ensures r == FirstInPreorder(files, key, value)
    decreases files
  {
    for i := 0 to |files|
      invariant NoMatchBefore(files, i, key, value)
    {
      var file := files[i];
      if KeyOf(file, key) == value {
        FoundAt(files, i, key, value);
        return Some(file);
      }
      var found := None;
      if file.children.Present? {
        found := FindNode(file.children.nodes, key, value);
        if found.Some? {
          FoundBelow(files, i, key, value);
          return found;
        }
      }
      NotFoundThrough(files, i, key, value);
    }
    assert files[..|files|] == files;
    return None;
  }

  /** findNodeById: the first node in pre-order with this id, or none. */
  method FindNodeById(files: seq<FileNode>, id: string) returns (r: Option<FileNode>)
    ensures r == FirstInPreorder(files, ById, id)
    ensures r.None? <==> NoNodeWithId(files, id)
    ensures r.Some? ==> r.value.id == id && r.value in Preorder(files)
  {
    r := FindNode(files, ById, id);
  }

  /** findNodeByPath: the first node in pre-order with this path, or none. */
  method FindNodeByPath(files: seq<FileNode>, path: string) returns (r: Option<FileNode>)
    ensures r == FirstInPreorder(files, ByPath, path)
    ensures r.None? <==> forall n :: n in Preorder(files) ==> n.path != path
    ensures r.Some? ==> r.value.path == path && r.value in Preorder(files)
  {
    r := FindNode(files, ByPath, path);
  }

  // ---------------------------------------------------------------------------
  // searchInFiles

  /** A file whose content or name includes the query, ignoring case; folders never match. */
  predicate Matches(n: FileNode, query: string) {
    n.kind == File &&
    ((n.content.Some? && Contains(Lower(n.content.value), Lower(query))) ||
     Contains(Lower(n.name), Lower(query)))
  }

  /** The matching nodes of a flat list, in list order. */
  function Matching(nodes: seq<FileNode>, query: string): seq<FileNode> {
    if nodes == [] then []
    else (if Matches(nodes[0], query) then [nodes[0]] else []) + Matching(nodes[1..], query)
  }

  lemma {:induction false} MatchingAppend(a: seq<FileNode>, b: seq<FileNode>, query: string)
    ensures Matching(a + b, query) == Matching(a, query) + Matching(b, query)
    decreases |a|
  {
    if a == [] {
      assert a + b == b;
    } else {
      var hit := if Matches(a[0], query) then [a[0]] else [];
      HeadTailAppend(a, b);
      assert Matching(a + b, query) == hit + Matching(a[1..] + b, query);
      MatchingAppend(a[1..], b, query);
      AppendAssoc(hit, Matching(a[1..], query), Matching(b, query));
    }
  }

  /** The result holds exactly the matching nodes of the input list, and only files. */
  lemma {:induction false} MatchingMembers(nodes: seq<FileNode>, query: string)
    ensures forall n :: n in Matching(nodes, query) <==> n in nodes && Matches(n, query)
    ensures forall n :: n in Matching(nodes, query) ==> n.kind == File
    decreases |nodes|
  {
    if nodes != [] {
      MatchingMembers(nodes[1..], query);
      assert forall n :: n in nodes <==> n == nodes[0] || n in nodes[1..];
    }
  }

  function FilesOnly(nodes: seq<FileNode>): seq<FileNode> {
    if nodes == [] then []
    else (if nodes[0].kind == File then [nodes[0]] else []) + FilesOnly(nodes[1..])
  }

  /** An empty query matches every file: the search lists all files in pre-order. */
  lemma {:induction false} MatchingEmptyQuery(nodes: seq<FileNode>)
    ensures Matching(nodes, "") == FilesOnly(nodes)
    decreases |nodes|
  {
    if nodes != [] {
      assert Lower("") == "";
      ContainsEmpty(Lower(nodes[0].name));
      MatchingEmptyQuery(nodes[1..]);
    }
  }

  /** The matches of a list extended by one tree are the old matches followed by the tree's. */
  lemma MatchingStep(ts: seq<FileNode>, i: nat, query: string)
    requires i < |ts|
    ensures Matching(Preorder(ts[..i + 1]), query) == Matching(Preorder(ts[..i]), query) + Matching(PreorderNode(ts[i]), query)
  {
    assert ts[..i + 1] == ts[..i] + [ts[i]];
    PreorderSnoc(ts[..i], ts[i]);
    MatchingAppend(Preorder(ts[..i]), PreorderNode(ts[i]), query);
  }

  /** The matches of a subtree: the root if it matches, then those of its children. */
  lemma MatchingNode(n: FileNode, query: string)
    ensures Matching(PreorderNode(n), query) == (if Matches(n, query) then [n] else []) + Matching(Preorder(Kids(n)), query)
  {
    PreorderNodeKids(n);
    MatchingAppend([n], Preorder(Kids(n)), query);
  }

  /** The recursive closure `search`: pushes the matches of one subtree onto `acc`. */
  method SearchNode(node: FileNode, query: string, acc: seq<FileNode>) returns (results: seq<FileNode>)
    ensures results == acc + Matching(PreorderNode(node), query)
    decreases node
  {
    var hit := Matches(node, query);
    results := if hit then acc + [node] else acc;
    MatchingNode(node, query);
    if node.children.Present? {
      var kids := node.children.nodes;
      results := SearchKids(node, kids, query, results);
    }
  }

  /** `node.children.forEach(search)`. */
  method SearchKids(ghost node: FileNode, kids: seq<FileNode>, query: string, acc: seq<FileNode>) returns (results: seq<FileNode>)
    requires node.children == Present(kids)
    ensures results == acc + Matching(Preorder(kids), query)
    decreases node, 0
  {
    results := acc;
    for i := 0 to |kids|
      invariant results == acc + Matching(Preorder(kids[..i]), query)
    {
      results := SearchNode(kids[i], query, results);
      MatchingStep(kids, i, query);
    }
    assert kids[..|kids|] == kids;
  }

  /** searchInFiles: every matching file of the forest, in pre-order. */
  method SearchInFiles(files: seq<FileNode>, query: string) returns (results: seq<FileNode>)
    ensures results == Matching(Preorder(files), query)
  {
    results := [];
    for i := 0 to |files|
      invariant results == Matching(Preorder(files[..i]), query)
    {
      results := SearchNode(files[i], query, results);
      MatchingStep(files, i, query);
    }
    assert files[..|files|] == files;
  }

  // ---------------------------------------------------------------------------
  // removeNodeById

  /** Drop every node with this id, at any depth; keep `children` absent where it was absent. */
  function RemoveNodeById(files: seq<FileNode>, id: string): seq<FileNode>
    decreases files
  {
    if files == [] then []
    else
      var rest := RemoveNodeById(files[1..], id);
      if files[0].id == id then rest else [Pruned(files[0], id)] + rest
  }

  /** The `map` step of removeNodeById: only `children` changes, and an absent array stays absent. */
  function Pruned(f: FileNode, id: string): (g: FileNode)
    ensures g.(children := f.children) == f
    ensures g.children.Absent? <==> f.children.Absent?
    decreases f
  {
    f.(children := if f.children.Present? then Present(RemoveNodeById(f.children.nodes, id)) else Absent)
  }

  function Ids(nodes: seq<FileNode>): seq<string> {
    if nodes == [] then [] else [nodes[0].id] + Ids(nodes[1..])
  }

  /** No node with the removed id is left anywhere in the result. */
  lemma {:induction false} RemoveLeavesNoId(files: seq<FileNode>, id: string)
    ensures NoNodeWithId(RemoveNodeById(files, id), id)
    decreases files
  {
    if files != [] {
      RemoveLeavesNoId(files[1..], id);
      var f := files[0];
      if f.id != id {
        if f.children.Present? {
          RemoveLeavesNoId(f.children.nodes, id);
        }
        PreorderCons(Pruned(f, id), RemoveNodeById(files[1..], id));
      }
    }
  }

  /** The surviving siblings keep their original relative order. */
  lemma {:induction false} RemoveKeepsSiblingOrder(files: seq<FileNode>, id: string)
    ensures Ids(RemoveNodeById(files, id)) == Without(Ids(files), id)
    decreases |files|
  {
    if files != [] {
      RemoveKeepsSiblingOrder(files[1..], id);
      var f := files[0];
      if f.id != id {
        assert ([Pruned(f, id)] + RemoveNodeById(files[1..], id))[1..] == RemoveNodeById(files[1..], id);
      }
    }
  }

  /** The positions, from `i` on, of the top-level nodes that removeNodeById keeps. */
  function SurvivorsFrom(files: seq<FileNode>, id: string, i: nat): seq<nat>
    requires i <= |files|
    decreases |files| - i
  {
    if i == |files| then [] else (if files[i].id == id then [] else [i]) + SurvivorsFrom(files, id, i + 1)
  }

  /** The survivor positions from `i` on are in range, increasing, and exactly those without the id. */
  lemma {:induction false} SurvivorsFromPositions(files: seq<FileNode>, id: string, i: nat)
    requires i <= |files|
    ensures var js := SurvivorsFrom(files, id, i);
      && (forall k :: 0 <= k < |js| ==> i <= js[k] < |files| && files[js[k]].id != id)
      && (forall k, l :: 0 <= k < l < |js| ==> js[k] < js[l])
      && (forall j :: i <= j < |files| && files[j].id != id ==> j in js)
    decreases |files| - i
  {
    if i < |files| {
      SurvivorsFromPositions(files, id, i + 1);
      var js, js' := SurvivorsFrom(files, id, i), SurvivorsFrom(files, id, i + 1);
      if files[i].id == id {
        assert js == js';
      } else {
        assert js == [i] + js';
        assert forall k :: 0 < k < |js| ==> js[k] == js'[k - 1];
      }
    }
  }

  /** From position `i` on, the `k`-th node removeNodeById keeps is the pruned `js[k]`-th input node. */
  lemma {:induction false} RemoveMapsSurvivorsFrom(files: seq<FileNode>, id: string, i: nat)
    requires i <= |files|
    ensures var r, js := RemoveNodeById(files[i..], id), SurvivorsFrom(files, id, i);
      && |js| == |r|
      && (forall k :: 0 <= k < |js| ==> js[k] < |files| && r[k] == Pruned(files[js[k]], id))
    decreases |files| - i
  {
    if i < |files| {
      RemoveMapsSurvivorsFrom(files, id, i + 1);
      RemoveStep(files, id, i);
      var r, js := RemoveNodeById(files[i..], id), SurvivorsFrom(files, id, i);
      var r', js' := RemoveNodeById(files[i + 1..], id), SurvivorsFrom(files, id, i + 1);
      if files[i].id != id {
        assert js == [i] + js' && r == [Pruned(files[i], id)] + r';
        assert forall k :: 0 < k < |js| ==> js[k] == js'[k - 1] && r[k] == r'[k - 1];
      }
    }
  }

  /**
   * removeNodeById is `filter` then `map`: the `k`-th result node is the
   * pruned copy of the `js[k]`-th input node, the positions `js` grow with
   * `k`, and they are exactly the positions of the nodes without the id.  A
   * pruned node keeps every field but `children`, which are the removal
   * applied to its own children, so the same holds at every depth.
   */
  lemma RemoveMapsSurvivors(files: seq<FileNode>, id: string)
    ensures var r, js := RemoveNodeById(files, id), SurvivorsFrom(files, id, 0);
      && |js| == |r|
      && (forall k :: 0 <= k < |js| ==> js[k] < |files| && files[js[k]].id != id && r[k] == Pruned(files[js[k]], id))
      && (forall k, l :: 0 <= k < l < |js| ==> js[k] < js[l])
      && (forall j :: 0 <= j < |files| && files[j].id != id ==> j in js)
  {
    RemoveMapsSurvivorsFrom(files, id, 0);
    SurvivorsFromPositions(files, id, 0);
    assert files[0..] == files;
  }

  /** One step of removeNodeById over the nodes from position `i` on. */
  lemma RemoveStep(files: seq<FileNode>, id: string, i: nat)
    requires i < |files|
    ensures RemoveNodeById(files[i..], id) ==
      (if files[i].id == id then [] else [Pruned(files[i], id)]) + RemoveNodeById(files[i + 1..], id)
  {
    assert files[i..][0] == files[i] && files[i..][1..] == files[i + 1..];
  }

  /** Removing an id that no node carries gives the forest back unchanged. */
  lemma {:induction false} RemoveAbsentId(files: seq<FileNode>, id: string)
    requires NoNodeWithId(files, id)
    ensures RemoveNodeById(files, id) == files
    decreases files
  {
    if files != [] {
      var f := files[0];
      NoNodeWithIdCons(files, id);
      assert files == [f] + files[1..];
      RemoveAbsentId(files[1..], id);
      if f.children.Present? {
        RemoveAbsentId(f.children.nodes, id);
      }
    }
  }

  /** Removing twice is the same as removing once. */
  lemma RemoveIdempotent(files: seq<FileNode>, id: string)
    ensures RemoveNodeById(RemoveNodeById(files, id), id) == RemoveNodeById(files, id)
  {
    RemoveLeavesNoId(files, id);
    RemoveAbsentId(RemoveNodeById(files, id), id);
  }

  // ---------------------------------------------------------------------------
  // updateNodeById

  /**
   * `Partial<FileNode>`: `None` leaves a field alone; for the optional fields
   * `Some(None)` is an update that sets the field to `undefined`.
   */
  datatype NodeUpdate = NodeUpdate(
    id: Option<string>,
    name: Option<string>,
    kind: Option<FileType>,
    path: Option<string>,
    content: Option<Option<string>>,
    children: Option<Children>,
    parentId: Option<Option<string>>)

  /** `{ ...file, ...updates }`. */
  function ApplyUpdate(n: FileNode, u: NodeUpdate): FileNode {
    FileNode(
      u.id.GetOr(n.id),
      u.name.GetOr(n.name),
      u.kind.GetOr(n.kind),
      u.path.GetOr(n.path),
      u.content.GetOr(n.content),
      u.children.GetOr(n.children),
      u.parentId.GetOr(n.parentId))
  }

  function UpdateNodeById(files: seq<FileNode>, id: string, u: NodeUpdate): (r: seq<FileNode>)
    ensures |r| == |files|
    decreases files
  {
    if files == [] then [] else [UpdateNode(files[0], id, u)] + UpdateNodeById(files[1..], id, u)
  }

  /** One element of the `map`: a match is updated and not descended into; any other node changes only its `children`. */
  function UpdateNode(f: FileNode, id: string, u: NodeUpdate): (g: FileNode)
    ensures f.id != id ==> g.(children := f.children) == f
    ensures f.id != id ==> (g.children.Absent? <==> f.children.Absent?)
    decreases f
  {
    if f.id == id then ApplyUpdate(f, u)
    else if f.children.Present? then f.(children := Present(UpdateNodeById(f.children.nodes, id, u)))
    else f
  }

  /** Two forests whose sibling lists have the same lengths at every level. */
  predicate SameShape(a: seq<FileNode>, b: seq<FileNode>)
    decreases a
  {
    |a| == |b| &&
    (a != [] ==>
      (a[0].children.Absent? <==> b[0].children.Absent?) &&
      (a[0].children.Present? && b[0].children.Present? ==> SameShape(a[0].children.nodes, b[0].children.nodes)) &&
      SameShape(a[1..], b[1..]))
  }

  /** An update that leaves `children` alone keeps every sibling list's length. */
  lemma {:induction false} UpdateKeepsShape(files: seq<FileNode>, id: string, u: NodeUpdate)
    requires u.children.None?
    ensures SameShape(files, UpdateNodeById(files, id, u))
    decreases files
  {
    if files != [] {
      var r := UpdateNodeById(files, id, u);
      assert r[1..] == UpdateNodeById(files[1..], id, u);
      UpdateKeepsShape(files[1..], id, u);
      var f := files[0];
      if f.id != id && f.children.Present? {
        UpdateKeepsShape(f.children.nodes, id, u);
      } else if f.id == id && f.children.Present? {
        SameShapeRefl(f.children.nodes);
      }
    }
  }

  lemma {:induction false} SameShapeRefl(a: seq<FileNode>)
    ensures SameShape(a, a)
    decreases a
  {
    if a != [] {
      SameShapeRefl(a[1..]);
      if a[0].children.Present? {
        SameShapeRefl(a[0].children.nodes);
      }
    }
  }

  /** An id no node carries leaves the forest unchanged. */
  lemma {:induction false} UpdateAbsentId(files: seq<FileNode>, id: string, u: NodeUpdate)
    requires NoNodeWithId(files, id)
    ensures UpdateNodeById(files, id, u) == files
    decreases files
  {
    if files != [] {
      var f := files[0];
      NoNodeWithIdCons(files, id);
      assert files == [f] + files[1..];
      UpdateAbsentId(files[1..], id, u);
      if f.children.Present? {
        UpdateAbsentId(f.children.nodes, id, u);
      }
    }
  }

  /**
   * A matched node is not descended into: when the update leaves `children`
   * alone, the matched node keeps its children verbatim, even ones that carry
   * the same id.
   */
  lemma MatchedNodeNotDescended(files: seq<FileNode>, id: string, u: NodeUpdate, k: nat)
    requires u.children.None? && k < |files| && files[k].id == id
    ensures UpdateNodeById(files, id, u)[k].children == files[k].children
    ensures UpdateNodeById(files, id, u)[k] == ApplyUpdate(files[k], u)
  {
    UpdateAt(files, id, u, k);
  }

  lemma {:induction false} UpdateAt(files: seq<FileNode>, id: string, u: NodeUpdate, k: nat)
    requires k < |files|
    ensures UpdateNodeById(files, id, u)[k] == UpdateNode(files[k], id, u)
    decreases k
  {
    if k > 0 {
      UpdateAt(files[1..], id, u, k - 1);
    }
  }

  /** Applying the same update twice is applying it once, when it keeps the id. */
  lemma {:induction false} UpdateIdempotent(files: seq<FileNode>, id: string, u: NodeUpdate)
    requires u.id.None? || u.id == Some(id)
    ensures UpdateNodeById(UpdateNodeById(files, id, u), id, u) == UpdateNodeById(files, id, u)
    decreases files
  {
    if files != [] {
      var once := UpdateNodeById(files, id, u);
      assert once[1..] == UpdateNodeById(files[1..], id, u);
      assert once == [once[0]] + once[1..];
      UpdateIdempotent(files[1..], id, u);
      var f := files[0];
      if f.id != id && f.children.Present? {
        UpdateIdempotent(f.children.nodes, id, u);
      }
    }
  }

  // ---------------------------------------------------------------------------
  // addNodeToParent

  /**
   * addNodeToParent: with no parent, append at top level; otherwise append
   * `newNode` to the children of every node carrying `parentId` that is not
   * itself below such a node.
   */
  function AddNodeToParent(files: seq<FileNode>, parentId: Option<string>, newNode: FileNode): (r: seq<FileNode>)
    ensures parentId.None? ==> |r| == |files| + 1 && r[..|files|] == files && r[|files|] == newNode
    ensures parentId.Some? ==> |r| == |files|
  {
    if parentId.None? then files + [newNode] else AddUnder(files, parentId.value, newNode)
  }

  function AddUnder(files: seq<FileNode>, parentId: string, newNode: FileNode): (r: seq<FileNode>)
    ensures |r| == |files|
    decreases files
  {
    if files == [] then [] else [AddUnderNode(files[0], parentId, newNode)] + AddUnder(files[1..], parentId, newNode)
  }

  /** One element of the `map`: only `children` can change. */
  function AddUnderNode(f: FileNode, parentId: string, newNode: FileNode): (g: FileNode)
    ensures g.(children := f.children) == f
    decreases f
  {
    if f.id == parentId then f.(children := Present(Kids(f) + [newNode]))
    else if f.children.Present? then f.(children := Present(AddUnder(f.children.nodes, parentId, newNode)))
    else f
  }

  /** An unknown parent id leaves the forest unchanged. */
  lemma AddUnknownParent(files: seq<FileNode>, parentId: string, newNode: FileNode)
    requires NoNodeWithId(files, parentId)
    ensures AddNodeToParent(files, Some(parentId), newNode) == files
  {
    AddUnderAbsent(files, parentId, newNode);
  }

  lemma {:induction false} AddUnderAbsent(files: seq<FileNode>, parentId: string, newNode: FileNode)
    requires NoNodeWithId(files, parentId)
    ensures AddUnder(files, parentId, newNode) == files
    decreases files
  {
    if files != [] {
      var f := files[0];
      NoNodeWithIdCons(files, parentId);
      AddUnderAbsent(files[1..], parentId, newNode);
      if f.children.Present? {
        AddUnderAbsent(f.children.nodes, parentId, newNode);
      }
      assert files == [f] + files[1..];
    }
  }

  /**
   * The `k`-th node after the `map` is the step applied to the `k`-th node:
   * every field but `children` is kept, and a node that neither carries the
   * id nor has a children array comes through unchanged.
   */
  lemma {:induction false} AddUnderAt(files: seq<FileNode>, parentId: string, newNode: FileNode, k: nat)
    requires k < |files|
    ensures AddUnder(files, parentId, newNode)[k] == AddUnderNode(files[k], parentId, newNode)
    ensures AddUnder(files, parentId, newNode)[k].(children := files[k].children) == files[k]
    ensures files[k].id != parentId && files[k].children.Absent? ==> AddUnder(files, parentId, newNode)[k] == files[k]
    decreases k
  {
    if k > 0 {
      AddUnderAt(files[1..], parentId, newNode, k - 1);
    }
  }

  /** With no match among the first `i` trees, the lookup answer is that of the rest of the forest. */
  lemma FirstInPreorderPast(files: seq<FileNode>, i: nat, key: Key, value: string)
    requires i <= |files| && NoMatchBefore(files, i, key, value)
    ensures FirstInPreorder(files, key, value) == FirstInPreorder(files[i..], key, value)
  {
    PreorderSlices(files, i);
    FirstIndexSkip(Preorder(files[..i]), Preorder(files[i..]), key, value);
  }

  lemma PreorderSlices(files: seq<FileNode>, i: nat)
    requires i <= |files|
    ensures Preorder(files) == Preorder(files[..i]) + Preorder(files[i..])
  {
    assert files == files[..i] + files[i..];
    PreorderAppend(files[..i], files[i..]);
  }

  /** Past a front without a match, the first match is the back's, shifted. */
  lemma FirstIndexSkip(before: seq<FileNode>, after: seq<FileNode>, key: Key, value: string)
    requires FirstIndex(before, key, value) == |before|
    ensures var k := FirstIndex(after, key, value);
      FirstIndex(before + after, key, value) == |before| + k &&
      (k < |after| ==> (before + after)[|before| + k] == after[k])
  {
    FirstIndexAppend(before, after, key, value);
    var k := FirstIndex(after, key, value);
    if k < |after| {
      IndexAppend(before, after, |before| + k);
    }
  }

  lemma NoMatchBeforeStart(files: seq<FileNode>, key: Key, value: string)
    ensures NoMatchBefore(files, 0, key, value)
  {
    assert files[..0] == [];
  }

  /**
   * The node a lookup by id finds first, in pre-order, gets `newNode` after
   * all its children; its other fields are kept (AddUnderAt).
   */
  lemma {:induction false} AddedUnderParent(files: seq<FileNode>, parentId: string, newNode: FileNode)
    requires FirstInPreorder(files, ById, parentId).Some?
    ensures var p := FirstInPreorder(files, ById, parentId).value;
      p.(children := Present(Kids(p) + [newNode])) in Preorder(AddNodeToParent(files, Some(parentId), newNode))
    decreases files
  {
    var f := files[0];
    var g := AddUnderNode(f, parentId, newNode);
    var rest := AddUnder(files[1..], parentId, newNode);
    PreorderCons(g, rest);
    assert AddUnder(files, parentId, newNode) == [g] + rest;
    NoMatchBeforeStart(files, ById, parentId);
    if f.id == parentId {
      FoundAt(files, 0, ById, parentId);
      assert g in PreorderNode(g);
    } else if FirstInPreorder(Kids(f), ById, parentId).Some? {
      FoundBelow(files, 0, ById, parentId);
      assert f.children.Present?;
      AddedUnderParent(f.children.nodes, parentId, newNode);
      PreorderNodeKids(g);
    } else {
      NotFoundThrough(files, 0, ById, parentId);
      FirstInPreorderPast(files, 1, ById, parentId);
      AddedUnderParent(files[1..], parentId, newNode);
    }
  }

  // ---------------------------------------------------------------------------
  // getLanguageFromExtension

  /** The 24-entry extension table. */
  const LanguageTable: map<string, string> := map[
    "ts" := "typescript", "tsx" := "typescript", "js" := "javascript", "jsx" := "javascript",
    "py" := "python", "html" := "html", "css" := "css", "scss" := "scss",
    "json" := "json", "md" := "markdown", "java" := "java", "cpp" := "cpp",
    "c" := "c", "cs" := "csharp", "php" := "php", "rb" := "ruby",
    "go" := "go", "rs" := "rust", "sql" := "sql", "xml" := "xml",
    "yaml" := "yaml", "yml" := "yaml", "sh" := "shell", "bash" := "shell"]

  /** `filename.split('.').pop().toLowerCase()`: the whole name when it has no dot. */
  function Extension(filename: string): (ext: string)
    ensures !Contains(ext, ".")
    ensures !Contains(filename, ".") ==> ext == Lower(filename)
  {
    var parts := SplitOn(filename, ".");
    assert !Contains(filename, ".") ==> parts == [filename];
    assert !Contains(Last(parts), ".");
    LowerKeepsDotFree(Last(parts));
    Lower(Last(parts))
  }

  lemma LowerKeepsDotFree(s: string)
    requires !Contains(s, ".")
    ensures !Contains(Lower(s), ".")
  {
    if Contains(Lower(s), ".") {
      var i := IndexOf(Lower(s), ".").value;
      assert Lower(s)[i] == '.';
      assert s[i..i + 1] == ".";
      assert OccursAt(s, ".", i);
    }
  }

  /**
   * getLanguageFromExtension, with the table consulted for its own entries
   * only (see LanguageAsWritten for the inherited keys of the source's object).
   */
  function GetLanguageFromExtension(filename: string): (lang: string)
    ensures Extension(filename) in LanguageTable ==> lang == LanguageTable[Extension(filename)]
    ensures Extension(filename) !in LanguageTable ==> lang == "plaintext"
    ensures lang in LanguageTable.Values || lang == "plaintext"
  {
    var ext := Extension(filename);
    if ext in LanguageTable then LanguageTable[ext] else "plaintext"
  }

  /** What indexing the object literal yields: one of its strings, or a member inherited from Object.prototype. */
  datatype LookupValue = Text(s: string) | Inherited(member: string)

  /** The members of Object.prototype, which an object literal also answers for. */
  const ObjectPrototypeMembers: set<string> := {
    "constructor", "__proto__", "hasOwnProperty", "isPrototypeOf", "propertyIsEnumerable",
    "toString", "toLocaleString", "valueOf", "__defineGetter__", "__defineSetter__",
    "__lookupGetter__", "__lookupSetter__"}

  /** getLanguageFromExtension as written: `languageMap[ext] || 'plaintext'` on a plain object. */
  function LanguageAsWritten(filename: string): LookupValue {
    var ext := Extension(filename);
    if ext in LanguageTable then Text(LanguageTable[ext])
    else if ext in ObjectPrototypeMembers then Inherited(ext)
    else Text("plaintext")
  }

  /**
   * Any file whose extension is `constructor` or `__proto__` gets a member of
   * Object.prototype rather than a language name.
   */
  lemma InheritedKeyYieldsNonString(stem: string, member: string)
    requires member == "constructor" || member == "__proto__"
    ensures LanguageAsWritten(stem + "." + member) == Inherited(member)
  {
    InheritedMemberText(member);
    InheritedMemberNotInTable(member);
    ExtensionAfterLastDot(stem, member);
  }

  lemma InheritedMemberText(member: string)
    requires member == "constructor" || member == "__proto__"
    ensures !Contains(member, ".") && Lower(member) == member
  {
    IndexOfChar(member, '.', |member|);
  }

  lemma InheritedMemberNotInTable(member: string)
    requires member == "constructor" || member == "__proto__"
    ensures member !in LanguageTable && member in ObjectPrototypeMembers
  {
  }

  /** The extension is the lower-cased text after the last dot. */
  lemma ExtensionAfterLastDot(stem: string, ext: string)
    requires !Contains(ext, ".")
    ensures Extension(stem + "." + ext) == Lower(ext)
  {
    LastPieceAfterSeparator(stem, '.', ext);
  }

  /** Apart from the inherited member names, the corrected lookup agrees with the source. */
  lemma LanguageAgreesOffPrototype(filename: string)
    requires Extension(filename) !in ObjectPrototypeMembers
    ensures LanguageAsWritten(filename) == Text(GetLanguageFromExtension(filename))
  {
  }

  // ---------------------------------------------------------------------------
  // getPathBreadcrumbs

  /** `path.split(' > ')`: never empty, and joining the crumbs gives the path back. */
  function GetPathBreadcrumbs(path: string): (crumbs: seq<string>)
    ensures |crumbs| >= 1
    ensures JoinWith(crumbs, " > ") == path
    ensures forall k :: 0 <= k < |crumbs| ==> !Contains(crumbs[k], " > ")
  {
    SplitOn(path, " > ")
  }
}
