/**
 RamFS as a map: what a plain path names, and what each change of the tree does to every path at once.
 */
module RamView {
  import opened RamTree
  import opened FileStream

  datatype Entry = Nothing | Directory | Holding(bytes: seq<char>)

  ghost predicate IsTree(fs: seq<Node>) { exists depth :: Tree(fs, depth) }

  // What a path of plain names leads to
  function At(fs: seq<Node>, path: seq<string>): Entry
    requires Shape(fs)
  {
    var n := Walk(fs, 0, path);
    if n == -1 || fs[n].kind == Free then Nothing
    else if fs[n].kind == Dir then Directory
    else Holding(Bytes(fs[n]))
  }

  lemma AtNothing(fs: seq<Node>, path: seq<string>)
    requires IsTree(fs) && PlainPath(path)
    ensures At(fs, path) == Nothing <==> Walk(fs, 0, path) == -1
  {
    var depth :| Tree(fs, depth);
    WalkFree(fs, depth, path);
  }

  // A path that leads on leads to a directory before.
  lemma AtPrefix(fs: seq<Node>, path: seq<string>, x: string)
    requires IsTree(fs) && PlainPath(path + [x])
    ensures At(fs, path) != Directory ==> At(fs, path + [x]) == Nothing
    ensures At(fs, path) == Directory ==>
      Walk(fs, 0, path) != -1 && Walk(fs, 0, path + [x]) == Find(fs, Walk(fs, 0, path), x)
  {
    WalkLast(fs, 0, path, x);
    assert Plain((path + [x])[|path|]);
  }

  // The nodes a new file or directory needs
  ghost predicate MayGrow(fs: seq<Node>, p: nat, x: string) {
    && Shape(fs) && p < NODES && fs[p].kind == Dir && |fs[p].children| < MAX_CHILDREN
    && FreeNodeOf(fs) < NODES && Find(fs, p, x) == -1 && |x| < NAME_MAX
  }

  // Every path names what it named before, but `path` names `entry`.
  ghost predicate Changed(fs: seq<Node>, fs': seq<Node>, path: seq<string>, entry: Entry) {
    Shape(fs) && Shape(fs') &&
    forall q :: PlainPath(q) ==> At(fs', q) == if q == path then entry else At(fs, q)
  }

  // Adding a node k of some kind under the directory that `path` names
  lemma AttachAt(fs: seq<Node>, path: seq<string>, x: string, k: nat, node: Node, q: seq<string>)
    requires IsTree(fs) && PlainPath(path + [x]) && PlainPath(q)
    requires Walk(fs, 0, path) != -1 && MayGrow(fs, Walk(fs, 0, path), x) && k == FreeNodeOf(fs)
    requires node.name == x && node.kind != Free && node.children == [] && node.parent == Walk(fs, 0, path)
    requires node.size == 0 && |node.data| == DATA_MAX
    ensures var fs' := Attach(fs, Walk(fs, 0, path), k, node);
      && IsTree(fs') && Walk(fs', 0, q) == if q == path + [x] then k else Walk(fs, 0, q)
  {
    var depth :| Tree(fs, depth);
    var p := Walk(fs, 0, path);
    assert Plain((path + [x])[|path|]);
    assert PlainPath(path) by {
      assert forall i :: 0 <= i < |path| ==> path[i] == (path + [x])[i];
    }
    PathUnique(fs, depth, path);
    assert CanAdd(fs, depth, p, k, node);
    AddTree(fs, depth, p, k, node);
    WalkAdded(fs, depth, p, k, node, q);
  }

  // The same for what the paths name
  lemma AttachChanged(fs: seq<Node>, path: seq<string>, x: string, k: nat, node: Node)
    requires IsTree(fs) && PlainPath(path + [x])
    requires Walk(fs, 0, path) != -1 && MayGrow(fs, Walk(fs, 0, path), x) && k == FreeNodeOf(fs)
    requires node.name == x && node.kind != Free && node.children == [] && node.parent == Walk(fs, 0, path)
    requires node.size == 0 && |node.data| == DATA_MAX
    ensures var fs' := Attach(fs, Walk(fs, 0, path), k, node);
      IsTree(fs') && Changed(fs, fs', path + [x], if node.kind == Dir then Directory else Holding([]))
  {
    var fs' := Attach(fs, Walk(fs, 0, path), k, node);
    AttachAt(fs, path, x, k, node, []);
    forall q | PlainPath(q)
      ensures At(fs', q) == if q == path + [x] then (if node.kind == Dir then Directory else Holding([])) else At(fs, q)
    {
      AttachOne(fs, path, x, k, node, q);
    }
  }

  lemma AttachOne(fs: seq<Node>, path: seq<string>, x: string, k: nat, node: Node, q: seq<string>)
    requires IsTree(fs) && PlainPath(path + [x]) && PlainPath(q)
    requires Walk(fs, 0, path) != -1 && MayGrow(fs, Walk(fs, 0, path), x) && k == FreeNodeOf(fs)
    requires node.name == x && node.kind != Free && node.children == [] && node.parent == Walk(fs, 0, path)
    requires node.size == 0 && |node.data| == DATA_MAX
    ensures var fs' := Attach(fs, Walk(fs, 0, path), k, node);
      && IsTree(fs')
      && At(fs', q) == if q == path + [x] then (if node.kind == Dir then Directory else Holding([])) else At(fs, q)
  {
    AttachAt(fs, path, x, k, node, q);
    AtNothing(fs, q);
    AtNothing(Attach(fs, Walk(fs, 0, path), k, node), q);
  }

  // Every one of the 128 nodes is in use.
  predicate Full(fs: seq<Node>) { forall k :: 0 <= k < |fs| ==> fs[k].kind != Free }

  /** ramfs_mkdir fails exactly without a parent, with 32 children, for a name that is there, or with all
      128 nodes in use, and then it changes nothing. */
  lemma MkdirFails(fs: seq<Node>, p: int, x: string)
    requires Shape(fs) && -1 <= p < 128
    ensures |fs| == 128
    ensures var c := DoMkdir(fs, p, x);
      && (c.ret == -1 <==> p == -1 || |fs[p].children| >= 32 || Find(fs, p, x) != -1 || Full(fs))
      && (c.ret == -1 ==> c.nodes == fs)
  {
  }

  /** ramfs_create gives back a node that is there, whatever it is, as it is; it fails exactly without a
      parent, with 32 children, or for a new name with all nodes in use. */
  lemma CreateFails(fs: seq<Node>, p: int, x: string)
    requires Shape(fs) && -1 <= p < 128
    ensures var c := DoCreate(fs, p, x);
      && (c.ret == -1 <==> p == -1 || |fs[p].children| >= 32 || (Find(fs, p, x) == -1 && Full(fs)))
      && (c.ret == -1 ==> c.nodes == fs)
      && (p != -1 && |fs[p].children| < 32 && Find(fs, p, x) != -1 ==> c == Change(fs, Find(fs, p, x)))
  {
  }

  /** A name is stored up to its 63rd character. */
  lemma NewName(fs: seq<Node>, p: int, x: string)
    requires Shape(fs) && 0 <= p < 128 && Find(fs, p, x) == -1
    ensures var c := DoMkdir(fs, p, x); c.ret != -1 && c.ret != p ==>
      c.nodes[c.ret].kind == Dir && c.nodes[c.ret].name == if |x| > 63 then x[..63] else x
    ensures var c := DoCreate(fs, p, x); c.ret != -1 && c.ret != p ==>
      c.nodes[c.ret].kind == File && c.nodes[c.ret].name == if |x| > 63 then x[..63] else x
  {
    assert |x| == 63 ==> x[..63] == x;
  }

  /** mkdir adds one directory to the map. */
  lemma MkdirAt(fs: seq<Node>, path: seq<string>, x: string)
    requires IsTree(fs) && PlainPath(path + [x])
    requires Walk(fs, 0, path) != -1 && MayGrow(fs, Walk(fs, 0, path), x)
    ensures var c := DoMkdir(fs, Walk(fs, 0, path), x);
      && c.ret == FreeNodeOf(fs) && IsTree(c.nodes) && Changed(fs, c.nodes, path + [x], Directory)
      && Walk(c.nodes, 0, path + [x]) == c.ret && c.nodes[c.ret].children == []
  {
    var p, k := Walk(fs, 0, path), FreeNodeOf(fs);
    var node := NewNode(fs[k], Dir, x, p).(children := []);
    AttachChanged(fs, path, x, k, node);
    AttachAt(fs, path, x, k, node, path + [x]);
  }

  /** create adds one empty file to the map. */
  lemma CreateAt(fs: seq<Node>, path: seq<string>, x: string)
    requires IsTree(fs) && PlainPath(path + [x])
    requires Walk(fs, 0, path) != -1 && MayGrow(fs, Walk(fs, 0, path), x)
    ensures var c := DoCreate(fs, Walk(fs, 0, path), x);
      && c.ret == FreeNodeOf(fs) && IsTree(c.nodes) && Changed(fs, c.nodes, path + [x], Holding([]))
      && Walk(c.nodes, 0, path + [x]) == c.ret && c.nodes[c.ret].kind == File
  {
    var p, k := Walk(fs, 0, path), FreeNodeOf(fs);
    var depth :| Tree(fs, depth);
    assert fs[k].children == [];
    var node := NewNode(fs[k], File, x, p);
    AttachChanged(fs, path, x, k, node);
    AttachAt(fs, path, x, k, node, path + [x]);
  }

  // ----- Contents -----

  // Same kinds, names and links: paths resolve alike.
  ghost predicate SameTree(a: seq<Node>, b: seq<Node>) {
    |a| == |b| && forall n :: 0 <= n < |a| ==>
      a[n].kind == b[n].kind && a[n].name == b[n].name && a[n].parent == b[n].parent && a[n].children == b[n].children
  }

  lemma {:induction false} WalkSame(a: seq<Node>, b: seq<Node>, cur: int, toks: seq<string>)
    requires Shape(a) && Shape(b) && SameTree(a, b) && 0 <= cur < NODES
    ensures Walk(a, cur, toks) == Walk(b, cur, toks)
    decreases |toks|
  {
    if |toks| > 0 {
      FindFromSame(a, b, a[cur].children, toks[0]);
      var next := Step(a, cur, toks[0]);
      if next != -1 {
        WalkSame(a, b, next, toks[1..]);
      }
    }
  }

  lemma {:induction false} SameCounts(a: seq<Node>, b: seq<Node>)
    requires SameTree(a, b)
    ensures CountLive(a) == CountLive(b) && CountChildren(a) == CountChildren(b)
    decreases |a|
  {
    if |a| > 0 {
      SameCounts(a[..|a| - 1], b[..|b| - 1]);
    }
  }

  lemma SameLinked(a: seq<Node>, b: seq<Node>)
    requires Shape(a) && Shape(b) && SameTree(a, b) && Linked(a)
    ensures Linked(b)
  {
    forall n: nat | n < NODES ensures HasParent(b, n) && OwnsChildren(b, n) && DistinctNames(b, b[n].children) {
      assert HasParent(a, n) && OwnsChildren(a, n) && DistinctNames(a, a[n].children);
    }
  }

  // Contents and sizes are no part of the tree.
  lemma SameIsTree(a: seq<Node>, b: seq<Node>, depth: seq<nat>)
    requires Shape(b) && SameTree(a, b) && Tree(a, depth)
    ensures Tree(b, depth)
  {
    SameCounts(a, b);
    SameLinked(a, b);
  }

  // The first |bytes| bytes of a file's data replaced, and its size set
  function Filled(fs: seq<Node>, f: nat, bytes: seq<char>): seq<Node>
    requires f < |fs| && |fs[f].data| == DATA_MAX && |bytes| <= DATA_MAX
  {
    fs[f := fs[f].(data := bytes + fs[f].data[|bytes|..], size := |bytes|)]
  }

  /** Writing a file changes what its one path names. */
  lemma WriteAt(fs: seq<Node>, path: seq<string>, bytes: seq<char>)
    requires IsTree(fs) && PlainPath(path) && At(fs, path).Holding? && |bytes| <= DATA_MAX
    ensures var f := Walk(fs, 0, path);
      f != -1 && IsTree(Filled(fs, f, bytes)) && Changed(fs, Filled(fs, f, bytes), path, Holding(bytes))
  {
    var depth :| Tree(fs, depth);
    var f := Walk(fs, 0, path);
    var fs' := Filled(fs, f, bytes);
    SameIsTree(fs, fs', depth);
    PathUnique(fs, depth, path);
    forall q | PlainPath(q) ensures At(fs', q) == if q == path then Holding(bytes) else At(fs, q) {
      WalkSame(fs, fs', 0, q);
      if Walk(fs, 0, q) == f { PathUnique(fs, depth, q); }
    }
  }

  /** delete takes one file or one empty directory off the map. */
  lemma DeleteAt(fs: seq<Node>, path: seq<string>, x: string)
    requires IsTree(fs) && PlainPath(path + [x]) && At(fs, path) == Directory
    ensures var p := Walk(fs, 0, path);
      && p != -1 && var c := DoDelete(fs, p, x);
      && (c.ret == -1 <==> At(fs, path + [x]) == Nothing)
      && (c.ret == -2 <==> At(fs, path + [x]) == Directory && fs[Walk(fs, 0, path + [x])].children != [])
      && (c.ret != 0 ==> c.nodes == fs)
      && (c.ret == 0 ==> IsTree(c.nodes) && Changed(fs, c.nodes, path + [x], Nothing))
  {
    var depth :| Tree(fs, depth);
    var p := Walk(fs, 0, path);
    var i := ChildIndex(fs, fs[p].children, x);
    AtPrefix(fs, path, x);
    AtNothing(fs, path + [x]);
    if i < |fs[p].children| {
      ChildFound(fs, depth, p, i, x);
      PathUnique(fs, depth, path + [x]);
      if fs[fs[p].children[i]].children == [] { DetachAt(fs, depth, p, i, path + [x]); }
    }
  }

  lemma ChildFound(fs: seq<Node>, depth: seq<nat>, p: nat, i: nat, x: string)
    requires Tree(fs, depth) && p < NODES && fs[p].kind == Dir && i < |fs[p].children| &&
        fs[fs[p].children[i]].name == x
    ensures var c := fs[p].children[i];
      Find(fs, p, x) == c && fs[c].kind != Free && (fs[c].kind == File ==> fs[c].children == [])
  {
    assert OwnsChildren(fs, p);
    FindChild(fs, p, fs[p].children[i]);
  }

  lemma DetachAt(fs: seq<Node>, depth: seq<nat>, p: nat, i: nat, path: seq<string>)
    requires CanRemove(fs, depth, p, i) && Live(fs, fs[p].children[i])
    requires PlainPath(path) && path == Path(fs, depth, fs[p].children[i])
    ensures IsTree(Detach(fs, p, i)) && Changed(fs, Detach(fs, p, i), path, Nothing)
  {
    var fs', c := Detach(fs, p, i), fs[p].children[i];
    RemoveTree(fs, depth, p, i);
    RemoveShape(fs, depth, p, i);
    forall q | PlainPath(q) ensures At(fs', q) == if q == path then Nothing else At(fs, q) {
      WalkRemoved(fs, depth, p, i, q);
      if Walk(fs, 0, q) == c { PathUnique(fs, depth, q); }
    }
  }
}
