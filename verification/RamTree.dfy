/**
 RamFS as a pool of 128 nodes (fs/ramfs.c). Pointers are node numbers, 0 is the root, -1 is NULL.

 `Tree` is the shape every operation keeps; `Walk` is the meaning of a path. The theorems say that
 each live node has exactly one canonical path, and what creating and deleting do to all of them.
 */
module RamTree {

  const NODES: nat := 128
  const MAX_CHILDREN: nat := 32
  const NAME_MAX: nat := 64
  const DATA_MAX: nat := 4096

  datatype Kind = Free | File | Dir

  // children are the first nchildren entries of the array; data is the whole 4 KB array
  datatype Node = Node(kind: Kind, name: string, size: nat, data: seq<char>, parent: int, children: seq<nat>)

  const BlankData: seq<char> := seq(DATA_MAX, _ => '\0')
  const FreeNode: Node := Node(Free, "", 0, BlankData, -1, [])

  // strncpy(n->name, name, 63)
  function Stored(name: string): string {
    if |name| < NAME_MAX then name else name[..NAME_MAX - 1]
  }

  // ----- Well-formed pools -----

  // Every number in use as a pointer is a node
  ghost predicate Shape(fs: seq<Node>) {
    && |fs| == NODES
    && forall n :: 0 <= n < NODES ==>
      |fs[n].data| == DATA_MAX && fs[n].size <= DATA_MAX && fs[n].parent < NODES &&
      forall i :: 0 <= i < |fs[n].children| ==> fs[n].children[i] < NODES
  }

  ghost predicate Live(fs: seq<Node>, n: int) { 0 <= n < |fs| && fs[n].kind != Free }

  // A node other than the root is among the children of its parent, a directory.
  ghost predicate HasParent(fs: seq<Node>, n: nat)
    requires Shape(fs) && n < NODES
  {
    0 < n && fs[n].kind != Free ==>
      0 <= fs[n].parent && fs[fs[n].parent].kind == Dir && n in fs[fs[n].parent].children
  }

  // The children of a node are live nodes that point back to it.
  ghost predicate OwnsChildren(fs: seq<Node>, d: nat)
    requires Shape(fs) && d < NODES
  {
    forall i :: 0 <= i < |fs[d].children| ==>
      fs[d].children[i] != 0 && fs[fs[d].children[i]].kind != Free && fs[fs[d].children[i]].parent == d
  }

  ghost predicate DistinctNames(fs: seq<Node>, ids: seq<nat>)
    requires forall i :: 0 <= i < |ids| ==> ids[i] < |fs|
  {
    forall i, j :: 0 <= i < j < |ids| ==> fs[ids[i]].name != fs[ids[j]].name
  }

  // Child and parent links are inverse; siblings have different names.
  ghost predicate Linked(fs: seq<Node>)
    requires Shape(fs)
  {
    && fs[0].kind == Dir && fs[0].parent == 0
    && (forall n: nat :: n < NODES ==> HasParent(fs, n))
    && (forall d: nat :: d < NODES ==> OwnsChildren(fs, d))
    && (forall d: nat :: d < NODES ==> DistinctNames(fs, fs[d].children))
    && (forall n: nat :: n < NODES ==> |fs[n].children| <= MAX_CHILDREN && (fs[n].kind != Dir ==> fs[n].children == []))
  }

  // Depths that grow by one along every parent link: the chains all reach the root.
  ghost predicate Ranked(fs: seq<Node>, depth: seq<nat>)
    requires Shape(fs)
  {
    && |depth| == NODES && depth[0] == 0
    && forall n :: 0 < n < NODES && fs[n].kind != Free ==>
      0 <= fs[n].parent && depth[n] == depth[fs[n].parent] + 1
  }

  function CountLive(fs: seq<Node>): nat {
    if |fs| == 0 then 0 else CountLive(fs[..|fs| - 1]) + if fs[|fs| - 1].kind != Free then 1 else 0
  }

  function CountChildren(fs: seq<Node>): nat {
    if |fs| == 0 then 0 else CountChildren(fs[..|fs| - 1]) + |fs[|fs| - 1].children|
  }

  ghost predicate Tree(fs: seq<Node>, depth: seq<nat>) {
    Shape(fs) && Linked(fs) && Ranked(fs, depth) && CountLive(fs) == 1 + CountChildren(fs)
  }

  // ----- Looking up -----

  function FindFrom(fs: seq<Node>, ids: seq<nat>, name: string): (c: int)
    requires forall i :: 0 <= i < |ids| ==> ids[i] < |fs|
    ensures c == -1 || (0 <= c < |fs| && c in ids && fs[c].name == name)
    ensures c == -1 ==> forall i :: 0 <= i < |ids| ==> fs[ids[i]].name != name
  {
    if |ids| == 0 then -1
    else if fs[ids[0]].name == name then ids[0]
    else FindFrom(fs, ids[1..], name)
  }

  // ramfs_find; NULL for a node that is not a directory
  function Find(fs: seq<Node>, d: int, name: string): (c: int)
    requires Shape(fs) && 0 <= d < NODES
    ensures -1 <= c < NODES
    ensures c >= 0 ==> fs[d].kind == Dir && c in fs[d].children && fs[c].name == name
    ensures c == -1 && fs[d].kind == Dir ==> forall i :: 0 <= i < |fs[d].children| ==>
        fs[fs[d].children[i]].name != name
  {
    if fs[d].kind != Dir then -1 else FindFrom(fs, fs[d].children, name)
  }

  // One token of a path
  function Step(fs: seq<Node>, cur: int, tok: string): (r: int)
    requires Shape(fs) && 0 <= cur < NODES
    ensures -1 <= r < NODES
  {
    if tok == "." then cur
    else if tok == ".." then (if 0 <= fs[cur].parent && fs[cur].parent != cur then fs[cur].parent else cur)
    else Find(fs, cur, tok)
  }

  // The tokens of a path from a node on; -1 when a name is not found
  function Walk(fs: seq<Node>, cur: int, toks: seq<string>): (r: int)
    requires Shape(fs) && 0 <= cur < NODES
    ensures -1 <= r < NODES
    decreases |toks|
  {
    if |toks| == 0 then cur
    else
      var next := Step(fs, cur, toks[0]);
      if next == -1 then -1 else Walk(fs, next, toks[1..])
  }

  predicate Plain(tok: string) { tok != "." && tok != ".." }

  predicate PlainPath(toks: seq<string>) { forall i :: 0 <= i < |toks| ==> Plain(toks[i]) }

  // The names from the root down to n
  ghost function Path(fs: seq<Node>, depth: seq<nat>, n: int): (p: seq<string>)
    requires Tree(fs, depth) && Live(fs, n)
    ensures |p| == depth[n]
    decreases depth[n]
  {
    if n == 0 then [] else
      assert HasParent(fs, n);
      Path(fs, depth, fs[n].parent) + [fs[n].name]
  }

  lemma {:induction false} WalkConcat(fs: seq<Node>, cur: int, a: seq<string>, b: seq<string>)
    requires Shape(fs) && 0 <= cur < NODES
    ensures Walk(fs, cur, a + b) == if Walk(fs, cur, a) == -1 then -1 else Walk(fs, Walk(fs, cur, a), b)
    decreases |a|
  {
    if |a| == 0 {
      assert a + b == b;
    } else {
      assert (a + b)[1..] == a[1..] + b;
      var next := Step(fs, cur, a[0]);
      if next != -1 {
        WalkConcat(fs, next, a[1..], b);
      }
    }
  }

  lemma WalkLast(fs: seq<Node>, cur: int, a: seq<string>, x: string)
    requires Shape(fs) && 0 <= cur < NODES
    ensures Walk(fs, cur, a + [x]) == if Walk(fs, cur, a) == -1 then -1 else Step(fs, Walk(fs, cur, a), x)
  {
    WalkConcat(fs, cur, a, [x]);
  }

  // Sibling names are unique, so a child is found under its name.
  lemma FindChild(fs: seq<Node>, d: int, c: int)
    requires Shape(fs) && Linked(fs) && 0 <= d < NODES && fs[d].kind == Dir && c in fs[d].children
    ensures Find(fs, d, fs[c].name) == c
  {
    assert DistinctNames(fs, fs[d].children);
    var f := Find(fs, d, fs[c].name);
    var i :| 0 <= i < |fs[d].children| && fs[d].children[i] == c;
    assert f != -1;
    var j :| 0 <= j < |fs[d].children| && fs[d].children[j] == f;
    assert i == j;
  }

  lemma FoundLive(fs: seq<Node>, d: int, name: string)
    requires Shape(fs) && Linked(fs) && 0 <= d < NODES && Find(fs, d, name) != -1
    ensures var c := Find(fs, d, name); c != 0 && fs[c].kind != Free && fs[c].parent == d && fs[c].name == name
  {
    var c := Find(fs, d, name);
    assert OwnsChildren(fs, d);
    var i :| 0 <= i < |fs[d].children| && fs[d].children[i] == c;
  }

  /** The canonical path of a live node leads to it. */
  lemma {:induction false} WalkPath(fs: seq<Node>, depth: seq<nat>, n: int)
    requires Tree(fs, depth) && Live(fs, n) && PlainPath(Path(fs, depth, n))
    ensures Walk(fs, 0, Path(fs, depth, n)) == n
    decreases depth[n]
  {
    if n != 0 {
      var p := fs[n].parent;
      assert HasParent(fs, n);
      var init := Path(fs, depth, p);
      assert Path(fs, depth, n)[..|init|] == init;
      assert Plain(Path(fs, depth, n)[|init|]);
      assert PlainPath(init) by {
        assert forall i :: 0 <= i < |init| ==> init[i] == Path(fs, depth, n)[i];
      }
      WalkPath(fs, depth, p);
      WalkLast(fs, 0, init, fs[n].name);
      FindChild(fs, p, n);
    }
  }

  /** And it is the only path without dots that does. */
  lemma {:induction false} PathUnique(fs: seq<Node>, depth: seq<nat>, toks: seq<string>)
    requires Tree(fs, depth) && PlainPath(toks) && Walk(fs, 0, toks) != -1
    ensures Live(fs, Walk(fs, 0, toks)) && toks == Path(fs, depth, Walk(fs, 0, toks))
    decreases |toks|
  {
    if |toks| > 0 {
      var init, last := toks[..|toks| - 1], toks[|toks| - 1];
      assert toks == init + [last];
      WalkLast(fs, 0, init, last);
      PathUnique(fs, depth, init);
      FoundLive(fs, Walk(fs, 0, init), last);
    }
  }

  // ----- Changing the tree -----

  // alloc_node: first FREE node, the length if there is none
  function FreeNodeOf(fs: seq<Node>): (k: nat)
    ensures k <= |fs| && (k < |fs| ==> fs[k].kind == Free)
    ensures forall i :: 0 <= i < k ==> fs[i].kind != Free
  {
    if |fs| == 0 || fs[0].kind == Free then 0 else FreeNodeOf(fs[1..]) + 1
  }

  // Node k becomes a child of p.
  function Attach(fs: seq<Node>, p: nat, k: nat, node: Node): seq<Node>
    requires p < |fs| && k < |fs|
  {
    var fs1 := fs[k := node];
    fs1[p := fs1[p].(children := fs1[p].children + [k])]
  }

  function NewNode(old_: Node, kind: Kind, name: string, p: nat): Node {
    old_.(kind := kind, name := Stored(name), size := 0, parent := p)
  }

  datatype Change = Change(nodes: seq<Node>, ret: int)

  function DoMkdir(fs: seq<Node>, p: int, name: string): Change
    requires Shape(fs) && -1 <= p < NODES
  {
    if p == -1 || |fs[p].children| >= MAX_CHILDREN || Find(fs, p, name) != -1 ||
        FreeNodeOf(fs) == NODES then Change(fs, -1)
    else
      var k := FreeNodeOf(fs);
      Change(Attach(fs, p, k, NewNode(fs[k], Dir, name, p).(children := [])), k)
  }

  function DoCreate(fs: seq<Node>, p: int, name: string): Change
    requires Shape(fs) && -1 <= p < NODES
  {
    if p == -1 || |fs[p].children| >= MAX_CHILDREN then Change(fs, -1)
    else if Find(fs, p, name) != -1 then Change(fs, Find(fs, p, name))
    else if FreeNodeOf(fs) == NODES then Change(fs, -1)
    else
      var k := FreeNodeOf(fs);
      Change(Attach(fs, p, k, NewNode(fs[k], File, name, p)), k)
  }

  // Index of the first child with the name, |ids| if there is none
  function ChildIndex(fs: seq<Node>, ids: seq<nat>, name: string): (i: nat)
    requires forall i :: 0 <= i < |ids| ==> ids[i] < |fs|
    ensures i <= |ids| && (i < |ids| ==> fs[ids[i]].name == name)
    ensures forall j :: 0 <= j < i ==> fs[ids[j]].name != name
  {
    if |ids| == 0 || fs[ids[0]].name == name then 0 else ChildIndex(fs, ids[1..], name) + 1
  }

  function Detach(fs: seq<Node>, p: nat, i: nat): seq<Node>
    requires p < |fs| && i < |fs[p].children| && fs[p].children[i] < |fs|
  {
    var c, ids := fs[p].children[i], fs[p].children;
    var fs1 := fs[c := fs[c].(kind := Free)];
    fs1[p := fs1[p].(children := ids[..i] + ids[i + 1..])]
  }

  function DoDelete(fs: seq<Node>, p: int, name: string): Change
    requires Shape(fs) && -1 <= p < NODES
  {
    if p == -1 then Change(fs, -1)
    else
      var i := ChildIndex(fs, fs[p].children, name);
      if i == |fs[p].children| then Change(fs, -1)
      else
        var c := fs[p].children[i];
        if fs[c].kind == Dir && |fs[c].children| > 0 then Change(fs, -2)
        else Change(Detach(fs, p, i), 0)
  }

  // ----- Counting -----

  lemma {:induction false} CountUpdate(fs: seq<Node>, k: nat, node: Node)
    requires k < |fs|
    ensures CountLive(fs[k := node]) ==
            CountLive(fs) - (if fs[k].kind != Free then 1 else 0) + (if node.kind != Free then 1 else 0)
    ensures CountChildren(fs[k := node]) == CountChildren(fs) - |fs[k].children| + |node.children|
  {
    var init := fs[..|fs| - 1];
    if k < |fs| - 1 {
      assert fs[k := node][..|fs| - 1] == init[k := node];
      CountUpdate(init, k, node);
    } else {
      assert fs[k := node][..|fs| - 1] == init;
    }
  }

  // ----- Adding a node -----

  // The situation in which mkdir or create adds node k under p
  ghost predicate CanAdd(fs: seq<Node>, depth: seq<nat>, p: nat, k: nat, node: Node) {
    && Tree(fs, depth) && p < NODES && fs[p].kind == Dir && |fs[p].children| < MAX_CHILDREN
    && k < NODES && fs[k].kind == Free
    && node.kind != Free && node.children == [] && node.parent == p && node.size == 0 && |node.data| == DATA_MAX
    && Find(fs, p, node.name) == -1
  }

  lemma AddShape(fs: seq<Node>, depth: seq<nat>, p: nat, k: nat, node: Node)
    requires CanAdd(fs, depth, p, k, node)
    ensures Shape(Attach(fs, p, k, node)) && Ranked(Attach(fs, p, k, node), depth[k := depth[p] + 1])
  {
    forall n | 0 < n < NODES && fs[n].kind != Free ensures fs[n].parent != k {
      assert HasParent(fs, n);
    }
  }

  // One node after an addition
  lemma AddParent(fs: seq<Node>, depth: seq<nat>, p: nat, k: nat, node: Node, n: nat)
    requires CanAdd(fs, depth, p, k, node) && n < NODES
    ensures Shape(Attach(fs, p, k, node)) && HasParent(Attach(fs, p, k, node), n)
  {
    var r := Attach(fs, p, k, node);
    AddShape(fs, depth, p, k, node);
    assert r[p].children == fs[p].children + [k];
    assert HasParent(fs, n);
    if n == k {
      assert r[p].children[|fs[p].children|] == k;
    } else if n > 0 && r[n].kind != Free && r[n].parent == p {
      var i :| 0 <= i < |fs[p].children| && fs[p].children[i] == n;
      assert r[p].children[i] == n;
    }
  }

  lemma AddChildren(fs: seq<Node>, depth: seq<nat>, p: nat, k: nat, node: Node, d: nat)
    requires CanAdd(fs, depth, p, k, node) && d < NODES
    ensures Shape(Attach(fs, p, k, node)) && OwnsChildren(Attach(fs, p, k, node), d)
    ensures DistinctNames(Attach(fs, p, k, node), Attach(fs, p, k, node)[d].children)
  {
    var r := Attach(fs, p, k, node);
    AddShape(fs, depth, p, k, node);
    assert OwnsChildren(fs, d) && DistinctNames(fs, fs[d].children);
    forall i | 0 <= i < |fs[d].children|
      ensures fs[d].children[i] != k && r[fs[d].children[i]].name == fs[fs[d].children[i]].name
    {
    }
    if d == p {
      assert r[p].children == fs[p].children + [k];
    }
  }

  lemma AddLinked(fs: seq<Node>, depth: seq<nat>, p: nat, k: nat, node: Node)
    requires CanAdd(fs, depth, p, k, node)
    ensures Shape(Attach(fs, p, k, node)) && Linked(Attach(fs, p, k, node))
  {
    AddShape(fs, depth, p, k, node);
    var r := Attach(fs, p, k, node);
    forall n: nat | n < NODES ensures HasParent(r, n) && OwnsChildren(r, n) && DistinctNames(r, r[n].children) {
      AddParent(fs, depth, p, k, node, n);
      AddChildren(fs, depth, p, k, node, n);
    }
    assert HasParent(fs, k);
  }

  /** mkdir and create keep the tree. */
  lemma AddTree(fs: seq<Node>, depth: seq<nat>, p: nat, k: nat, node: Node)
    requires CanAdd(fs, depth, p, k, node)
    ensures Tree(Attach(fs, p, k, node), depth[k := depth[p] + 1])
  {
    AddShape(fs, depth, p, k, node);
    AddLinked(fs, depth, p, k, node);
    CountUpdate(fs, k, node);
    CountUpdate(fs[k := node], p, fs[k := node][p].(children := fs[k := node][p].children + [k]));
  }

  // ----- What an addition does to paths -----

  lemma {:induction false} FindFromSame(fs: seq<Node>, fs': seq<Node>, ids: seq<nat>, name: string)
    requires |fs| == |fs'|
    requires forall i :: 0 <= i < |ids| ==> ids[i] < |fs| && fs'[ids[i]].name == fs[ids[i]].name
    ensures FindFrom(fs', ids, name) == FindFrom(fs, ids, name)
  {
    if |ids| > 0 {
      FindFromSame(fs, fs', ids[1..], name);
    }
  }

  lemma {:induction false} FindFromAppend(fs: seq<Node>, ids: seq<nat>, k: nat, name: string)
    requires k < |fs| && forall i :: 0 <= i < |ids| ==> ids[i] < |fs|
    ensures FindFrom(fs, ids + [k], name) ==
            if FindFrom(fs, ids, name) != -1 then FindFrom(fs, ids, name)
            else if fs[k].name == name then k else -1
  {
    if |ids| > 0 {
      assert (ids + [k])[1..] == ids[1..] + [k];
      FindFromAppend(fs, ids[1..], k, name);
    }
  }

  // Looking a name up in a live directory after an addition
  lemma FindAdded(fs: seq<Node>, depth: seq<nat>, p: nat, k: nat, node: Node, d: nat, name: string)
    requires CanAdd(fs, depth, p, k, node) && d < NODES && d != k
    ensures Shape(Attach(fs, p, k, node))
    ensures Find(Attach(fs, p, k, node), d, name) == if d == p && name == node.name then k else Find(fs, d, name)
  {
    var r := Attach(fs, p, k, node);
    AddShape(fs, depth, p, k, node);
    assert OwnsChildren(fs, d);
    forall i | 0 <= i < |fs[d].children| ensures r[fs[d].children[i]].name == fs[fs[d].children[i]].name {
    }
    FindFromSame(fs, r, fs[d].children, name);
    if d == p {
      FindFromAppend(r, fs[p].children, k, name);
    }
  }

  lemma WalkFree(fs: seq<Node>, depth: seq<nat>, toks: seq<string>)
    requires Tree(fs, depth) && PlainPath(toks)
    ensures Walk(fs, 0, toks) == -1 || Live(fs, Walk(fs, 0, toks))
  {
    if Walk(fs, 0, toks) != -1 {
      PathUnique(fs, depth, toks);
    }
  }

  lemma NewPathMissing(fs: seq<Node>, depth: seq<nat>, p: nat, k: nat, node: Node)
    requires CanAdd(fs, depth, p, k, node) && Plain(node.name) && PlainPath(Path(fs, depth, p))
    ensures Walk(fs, 0, Path(fs, depth, p) + [node.name]) == -1
  {
    WalkPath(fs, depth, p);
    WalkLast(fs, 0, Path(fs, depth, p), node.name);
  }

  // The last step of a walk through a directory that was there
  lemma LastStepAdded(fs: seq<Node>, depth: seq<nat>, p: nat, k: nat, node: Node, init: seq<string>, last: string)
    requires CanAdd(fs, depth, p, k, node) && PlainPath(init) && Plain(last) && PlainPath(Path(fs, depth, p))
    requires Walk(fs, 0, init) != -1
    ensures Shape(Attach(fs, p, k, node))
    ensures var r, w := Attach(fs, p, k, node), Walk(fs, 0, init);
      Step(r, w, last) == if init + [last] == Path(fs, depth, p) + [node.name] then k else Step(fs, w, last)
  {
    var new_, w := Path(fs, depth, p) + [node.name], Walk(fs, 0, init);
    PathUnique(fs, depth, init);
    FindAdded(fs, depth, p, k, node, w, last);
    WalkPath(fs, depth, p);
    SnocEqual(init, last, Path(fs, depth, p), node.name);
  }

  /** An addition makes exactly one more canonical path resolve, and every other path resolves as
      before. */
  lemma {:induction false} WalkAdded(fs: seq<Node>, depth: seq<nat>, p: nat, k: nat, node: Node, toks: seq<string>)
    requires CanAdd(fs, depth, p, k, node) && PlainPath(toks)
    requires Plain(node.name) && PlainPath(Path(fs, depth, p))
    ensures Shape(Attach(fs, p, k, node))
    ensures Walk(Attach(fs, p, k, node), 0, toks) ==
            if toks == Path(fs, depth, p) + [node.name] then k else Walk(fs, 0, toks)
    decreases |toks|
  {
    var r, new_ := Attach(fs, p, k, node), Path(fs, depth, p) + [node.name];
    AddShape(fs, depth, p, k, node);
    if |toks| > 0 {
      var init, last := toks[..|toks| - 1], toks[|toks| - 1];
      assert toks == init + [last];
      WalkAdded(fs, depth, p, k, node, init);
      WalkLast(fs, 0, init, last);
      WalkLast(r, 0, init, last);
      NewPathMissing(fs, depth, p, k, node);
      if init == new_ {
        assert r[k].children == [];
        assert toks != new_;
      } else if Walk(fs, 0, init) == -1 {
        NotBelowMissing(fs, depth, p, init, last, node.name);
      } else {
        LastStepAdded(fs, depth, p, k, node, init, last);
      }
    }
  }

  // A path that does not resolve is not the path of p.
  lemma NotBelowMissing(fs: seq<Node>, depth: seq<nat>, p: nat, init: seq<string>, last: string, name: string)
    requires Tree(fs, depth) && p < NODES && Live(fs, p) && PlainPath(Path(fs, depth, p)) && Walk(fs, 0, init) == -1
    ensures init + [last] != Path(fs, depth, p) + [name]
  {
    WalkPath(fs, depth, p);
    SnocEqual(init, last, Path(fs, depth, p), name);
  }

  lemma SnocEqual(a: seq<string>, x: string, b: seq<string>, y: string)
    ensures a + [x] == b + [y] ==> a == b && x == y
  {
    if a + [x] == b + [y] {
      assert (a + [x])[..|a|] == a && (b + [y])[..|b|] == b;
      assert (a + [x])[|a|] == x && (b + [y])[|b|] == y;
    }
  }

  // ----- Removing a node -----

  ghost predicate CanRemove(fs: seq<Node>, depth: seq<nat>, p: nat, i: nat) {
    Tree(fs, depth) && p < NODES && i < |fs[p].children| && fs[fs[p].children[i]].children == []
  }

  lemma RemoveShape(fs: seq<Node>, depth: seq<nat>, p: nat, i: nat)
    requires CanRemove(fs, depth, p, i)
    ensures var c, r := fs[p].children[i], Detach(fs, p, i);
      && Shape(r) && Ranked(r, depth)
      && c != 0 && c != p && fs[c].parent == p && fs[p].kind == Dir && fs[c].kind != Free
      && r[c].kind == Free
      && forall n :: 0 <= n < NODES && n != c ==>
        r[n].kind == fs[n].kind && r[n].name == fs[n].name && r[n].parent == fs[n].parent
  {
    assert OwnsChildren(fs, p);
    var c := fs[p].children[i];
    assert HasParent(fs, c);
  }

  // The removed child stands at one place only.
  lemma OtherChildren(fs: seq<Node>, depth: seq<nat>, p: nat, i: nat, d: nat, j: nat)
    requires CanRemove(fs, depth, p, i) && d < NODES && j < |fs[d].children|
    requires d != p || j != i
    ensures fs[d].children[j] != fs[p].children[i]
  {
    assert OwnsChildren(fs, p) && OwnsChildren(fs, d) && DistinctNames(fs, fs[p].children);
  }

  lemma RemoveNode(fs: seq<Node>, depth: seq<nat>, p: nat, i: nat, n: nat)
    requires CanRemove(fs, depth, p, i) && n < NODES
    ensures Shape(Detach(fs, p, i))
    ensures HasParent(Detach(fs, p, i), n)
  {
    var r, c := Detach(fs, p, i), fs[p].children[i];
    RemoveShape(fs, depth, p, i);
    assert HasParent(fs, n);
    if n > 0 && n != c && fs[n].kind != Free {
      assert fs[fs[n].parent].children != [];
      if fs[n].parent == p { StillListed(fs[p].children, i, n); }
    }
  }

  lemma StillListed(ids: seq<nat>, i: nat, n: nat)
    requires i < |ids| && n in ids && n != ids[i]
    ensures n in ids[..i] + ids[i + 1..]
  {
    var j :| 0 <= j < |ids| && ids[j] == n;
    assert (ids[..i] + ids[i + 1..])[if j < i then j else j - 1] == n;
  }

  lemma RemoveOwns(fs: seq<Node>, depth: seq<nat>, p: nat, i: nat, d: nat)
    requires CanRemove(fs, depth, p, i) && d < NODES
    ensures Shape(Detach(fs, p, i)) && OwnsChildren(Detach(fs, p, i), d)
  {
    var r, c, ids := Detach(fs, p, i), fs[p].children[i], fs[d].children;
    RemoveShape(fs, depth, p, i);
    assert OwnsChildren(fs, d);
    forall j | 0 <= j < |r[d].children|
      ensures r[d].children[j] != 0 && r[r[d].children[j]].kind != Free && r[r[d].children[j]].parent == d
    {
      var k := if d == p && j >= i then j + 1 else j;
      assert r[d].children[j] == ids[k];
      OtherChildren(fs, depth, p, i, d, k);
    }
  }

  lemma DistinctWithout(fs: seq<Node>, ids: seq<nat>, i: nat)
    requires forall j :: 0 <= j < |ids| ==> ids[j] < |fs|
    requires i < |ids| && DistinctNames(fs, ids)
    ensures DistinctNames(fs, ids[..i] + ids[i + 1..])
  {
    var less := ids[..i] + ids[i + 1..];
    assert forall j :: 0 <= j < |less| ==> less[j] == if j < i then ids[j] else ids[j + 1];
  }

  lemma DistinctSame(fs: seq<Node>, fs': seq<Node>, ids: seq<nat>)
    requires |fs| == |fs'| && forall j :: 0 <= j < |ids| ==> ids[j] < |fs| && fs'[ids[j]].name == fs[ids[j]].name
    requires DistinctNames(fs, ids)
    ensures DistinctNames(fs', ids)
  {
  }

  lemma RemoveDistinct(fs: seq<Node>, depth: seq<nat>, p: nat, i: nat, d: nat)
    requires CanRemove(fs, depth, p, i) && d < NODES
    ensures Shape(Detach(fs, p, i)) && DistinctNames(Detach(fs, p, i), Detach(fs, p, i)[d].children)
  {
    var r := Detach(fs, p, i);
    RemoveShape(fs, depth, p, i);
    assert forall n :: 0 <= n < NODES ==> r[n].name == fs[n].name;
    if d == p {
      DistinctWithout(fs, fs[p].children, i);
    }
    DistinctSame(fs, r, r[d].children);
  }

  lemma RemoveLinked(fs: seq<Node>, depth: seq<nat>, p: nat, i: nat)
    requires CanRemove(fs, depth, p, i)
    ensures Shape(Detach(fs, p, i)) && Linked(Detach(fs, p, i))
  {
    var r := Detach(fs, p, i);
    RemoveShape(fs, depth, p, i);
    forall n: nat | n < NODES ensures HasParent(r, n) && OwnsChildren(r, n) && DistinctNames(r, r[n].children) {
      RemoveNode(fs, depth, p, i, n);
      RemoveOwns(fs, depth, p, i, n);
      RemoveDistinct(fs, depth, p, i, n);
    }
  }

  /** delete keeps the tree. */
  lemma RemoveTree(fs: seq<Node>, depth: seq<nat>, p: nat, i: nat)
    requires CanRemove(fs, depth, p, i)
    ensures Tree(Detach(fs, p, i), depth)
  {
    var c, ids := fs[p].children[i], fs[p].children;
    RemoveShape(fs, depth, p, i);
    RemoveLinked(fs, depth, p, i);
    var fs1 := fs[c := fs[c].(kind := Free)];
    CountUpdate(fs, c, fs[c].(kind := Free));
    CountUpdate(fs1, p, fs1[p].(children := ids[..i] + ids[i + 1..]));
  }

  lemma {:induction false} FindFromWithout(fs: seq<Node>, ids: seq<nat>, i: nat, name: string)
    requires forall j :: 0 <= j < |ids| ==> ids[j] < |fs|
    requires i < |ids| && DistinctNames(fs, ids)
    ensures FindFrom(fs, ids[..i] + ids[i + 1..], name) == if name == fs[ids[i]].name then -1
        else FindFrom(fs, ids, name)
  {
    var less := ids[..i] + ids[i + 1..];
    if i == 0 {
      assert less == ids[1..];
      assert forall j :: 0 <= j < |less| ==> less[j] == ids[j + 1] && fs[ids[0]].name != fs[ids[j + 1]].name;
    } else {
      assert less[1..] == ids[1..][..i - 1] + ids[1..][i..];
      assert ids[1..][i - 1] == ids[i];
      assert DistinctNames(fs, ids[1..]);
      assert fs[ids[0]].name != fs[ids[i]].name;
      FindFromWithout(fs, ids[1..], i - 1, name);
    }
  }

  lemma FindRemoved(fs: seq<Node>, depth: seq<nat>, p: nat, i: nat, d: nat, name: string)
    requires CanRemove(fs, depth, p, i) && d < NODES && d != fs[p].children[i]
    ensures Shape(Detach(fs, p, i))
    ensures Find(Detach(fs, p, i), d, name) ==
            if d == p && name == fs[fs[p].children[i]].name then -1 else Find(fs, d, name)
  {
    var r, c, ids := Detach(fs, p, i), fs[p].children[i], fs[p].children;
    RemoveShape(fs, depth, p, i);
    assert DistinctNames(fs, ids) && OwnsChildren(fs, d);
    FindFromSame(fs, r, fs[d].children, name);
    if d == p {
      FindFromWithout(fs, ids, i, name);
      FindFromSame(fs, r, ids[..i] + ids[i + 1..], name);
    }
  }

  // The last step of a walk through a directory that is still there
  lemma LastStepRemoved(fs: seq<Node>, depth: seq<nat>, p: nat, i: nat, init: seq<string>, last: string)
    requires CanRemove(fs, depth, p, i) && PlainPath(init) && Plain(last) && Live(fs, fs[p].children[i])
    requires Walk(fs, 0, init) != -1 && init != Path(fs, depth, fs[p].children[i])
    ensures Shape(Detach(fs, p, i))
    ensures var r, w := Detach(fs, p, i), Walk(fs, 0, init);
      Step(r, w, last) ==
      if init + [last] == Path(fs, depth, fs[p].children[i]) then -1 else Step(fs, w, last)
  {
    var c, w := fs[p].children[i], Walk(fs, 0, init);
    RemoveShape(fs, depth, p, i);
    PathUnique(fs, depth, init);
    FindRemoved(fs, depth, p, i, w, last);
    var gone := Path(fs, depth, c);
    assert gone == Path(fs, depth, p) + [fs[c].name];
    SnocEqual(init, last, Path(fs, depth, p), fs[c].name);
    if init == Path(fs, depth, p) && last == fs[c].name { WalkPath(fs, depth, p); }
  }

  /** A delete makes exactly the removed node's canonical path stop resolving; every other path
      resolves as before. */
  lemma {:induction false} WalkRemoved(fs: seq<Node>, depth: seq<nat>, p: nat, i: nat, toks: seq<string>)
    requires CanRemove(fs, depth, p, i) && PlainPath(toks)
    ensures Shape(Detach(fs, p, i)) && Live(fs, fs[p].children[i])
    ensures Walk(Detach(fs, p, i), 0, toks) ==
            if toks == Path(fs, depth, fs[p].children[i]) then -1 else Walk(fs, 0, toks)
    decreases |toks|
  {
    var r, c := Detach(fs, p, i), fs[p].children[i];
    RemoveShape(fs, depth, p, i);
    if |toks| > 0 {
      var init, last := toks[..|toks| - 1], toks[|toks| - 1];
      assert toks == init + [last];
      WalkRemoved(fs, depth, p, i, init);
      WalkLast(fs, 0, init, last);
      WalkLast(r, 0, init, last);
      if init == Path(fs, depth, c) {
        RemovedLeaf(fs, depth, c, init, last);
      } else if Walk(fs, 0, init) != -1 {
        LastStepRemoved(fs, depth, p, i, init, last);
      }
    }
  }

  // Nothing is found below a node without children.
  lemma RemovedLeaf(fs: seq<Node>, depth: seq<nat>, c: nat, path: seq<string>, last: string)
    requires Tree(fs, depth) && c < NODES && Live(fs, c) && fs[c].children == []
    requires path == Path(fs, depth, c) && PlainPath(path) && Plain(last)
    ensures Walk(fs, 0, path + [last]) == -1
  {
    WalkPath(fs, depth, c);
    WalkLast(fs, 0, path, last);
  }
}
