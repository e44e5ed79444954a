/**
 RamFS: a tree of files and directories in a fixed pool of nodes, changed in place (fs/ramfs.c).
 */
module KernelRamFS {
  import opened RamTree
  import opened RamPath
  import opened Tokens

  // Two ways to the front of a string
  lemma FrontOf(s: string, part: string, n: nat)
    requires n <= |part| <= |s| && part == s[..|part|]
    ensures s[..n] == part[..n]
  {
  }

  // One more name of a printed path
  lemma PrintedMore(names: seq<string>, k: nat)
    requires k < |names|
    ensures Rendered(names[..k + 1], '/') == Rendered(names[..k], '/') + "/" + names[k]
  {
    assert names[..k + 1] == names[..k] + [names[k]];
    RenderedAppend(names[..k], names[k]);
  }

  // The second loop of ramfs_abs_path
  method PrintParts(parts: seq<string>, ghost names: seq<string>) returns (out: string)
    requires |parts| == |names| && forall i :: 0 <= i < |parts| ==> parts[i] == names[|names| - 1 - i]
    ensures out == Rendered(names, '/')
  {
    out := "";
    var i := |parts| - 1;
    ghost var k := 0;
    while i >= 0
      invariant -1 <= i < |parts| && k == |parts| - 1 - i
      invariant out == Rendered(names[..k], '/')
    {
      PrintedMore(names, k);
      assert parts[i] == names[k];
      out := out + "/";
      out := out + parts[i];
      i, k := i - 1, k + 1;
    }
    assert names[..k] == names;
  }

  class RamFS {
    const nodes: array<Node>
    ghost var depth: seq<nat>

    ghost predicate Valid()
      reads this, nodes
    {
      nodes.Length == NODES && Shape(nodes[..]) && |depth| == NODES
    }

    ghost predicate IsTree()
      reads this, nodes
    {
      Valid() && Tree(nodes[..], depth)
    }

    constructor ()
      ensures IsTree() && fresh(nodes)
      ensures nodes[0].kind == Dir && nodes[0].children == [] && forall n :: 0 < n < NODES ==> nodes[n] == FreeNode
    {
      nodes := new Node[NODES](_ => FreeNode);
      depth := seq(NODES, _ => 0);
      new;
      nodes[0] := nodes[0].(kind := Dir, name := "/", parent := 0);
      EmptyTree(nodes[..], depth);
    }

    method AllocNode() returns (k: int)
      requires nodes.Length == NODES
      ensures k == if FreeNodeOf(nodes[..]) < NODES then FreeNodeOf(nodes[..]) else -1
    {
      ghost var fs := nodes[..];
      var i := 0;
      while i < NODES
        invariant 0 <= i <= NODES && forall j :: 0 <= j < i ==> fs[j].kind != Free
      {
        if nodes[i].kind == Free {
          assert fs[i].kind == Free;
          return i;
        }
        i := i + 1;
      }
      return -1;
    }

    // ramfs_find; d is -1 for NULL
    method FindNode(d: int, name: string) returns (c: int)
      requires Valid() && -1 <= d < NODES
      ensures c == if d == -1 then -1 else Find(nodes[..], d, name)
    {
      if d == -1 || nodes[d].kind != Dir { return -1; }
      ghost var fs := nodes[..];
      var ids := nodes[d].children;
      assert ids == fs[d].children;
      var i := 0;
      assert ids[0..] == ids;
      while i < |ids|
        invariant 0 <= i <= |ids| && FindFrom(fs, ids[i..], name) == FindFrom(fs, ids, name)
      {
        assert ids[i..][0] == ids[i] && ids[i..][1..] == ids[i + 1..];
        if nodes[ids[i]].name == name { return ids[i]; }
        i := i + 1;
      }
      return -1;
    }

    method Mkdir(parent: int, name: string) returns (n: int)
      requires Valid() && -1 <= parent < NODES
      modifies this, nodes
      ensures Valid() && Change(nodes[..], n) == DoMkdir(old(nodes[..]), parent, name)
      ensures old(IsTree()) && MayAdd(old(nodes[..]), parent, name) ==> IsTree()
    {
      if parent == -1 || |nodes[parent].children| >= MAX_CHILDREN { return -1; }
      var found := FindNode(parent, name);
      if found != -1 { return -1; }
      var k := AllocNode();
      if k == -1 { return -1; }
      ghost var node := NewNode(nodes[k], Dir, name, parent).(children := []);
      AddKeeps(nodes[..], depth, parent, k, name, node);
      FillNode(k, Dir, name, parent);
      nodes[k] := nodes[k].(children := []);
      assert nodes[..] == old(nodes[..])[k := node];
      Append(parent, k);
      return k;
    }

    method Create(parent: int, name: string) returns (n: int)
      requires Valid() && -1 <= parent < NODES
      modifies this, nodes
      ensures Valid() && Change(nodes[..], n) == DoCreate(old(nodes[..]), parent, name)
      ensures old(IsTree()) && MayAdd(old(nodes[..]), parent, name) ==> IsTree()
    {
      if parent == -1 || |nodes[parent].children| >= MAX_CHILDREN { return -1; }
      var existing := FindNode(parent, name);
      if existing != -1 { return existing; }
      var k := AllocNode();
      if k == -1 { return -1; }
      ghost var node := NewNode(nodes[k], File, name, parent);
      AddKeeps(nodes[..], depth, parent, k, name, node);
      FillNode(k, File, name, parent);
      Append(parent, k);
      return k;
    }

    // The fields of a new node
    method FillNode(k: nat, kind: Kind, name: string, parent: nat)
      requires k < nodes.Length
      modifies nodes
      ensures nodes[..] == old(nodes[..])[k := NewNode(old(nodes[k]), kind, name, parent)]
    {
      nodes[k] := nodes[k].(kind := kind);
      nodes[k] := nodes[k].(name := Stored(name));
      nodes[k] := nodes[k].(parent := parent);
      nodes[k] := nodes[k].(size := 0);
    }

    // parent->children[parent->nchildren++] = n
    method Append(parent: nat, k: nat)
      requires nodes.Length == |depth| == NODES && parent < NODES && k < NODES
      modifies this, nodes
      ensures nodes[..] == old(nodes[..])[parent := old(nodes[parent]).(children := old(nodes[parent]).children + [k])]
      ensures depth == old(depth)[k := old(depth)[parent] + 1]
    {
      nodes[parent] := nodes[parent].(children := nodes[parent].children + [k]);
      depth := depth[k := depth[parent] + 1];
    }

    method Delete(parent: int, name: string) returns (r: int)
      requires Valid() && -1 <= parent < NODES
      modifies nodes
      ensures Valid() && Change(nodes[..], r) == DoDelete(old(nodes[..]), parent, name)
      ensures old(IsTree()) ==> IsTree()
    {
      if parent == -1 { return -1; }
      var i := FindIndex(parent, name);
      ghost var fs := nodes[..];
      if i == |nodes[parent].children| { return -1; }
      var c := nodes[parent].children[i];
      if nodes[c].kind == Dir && |nodes[c].children| > 0 { return -2; }
      if IsTree() { DeleteKeeps(fs, depth, parent, i); }
      nodes[c] := nodes[c].(kind := Free);
      CloseChildren(parent, i);
      DetachShape(fs, parent, i);
      assert nodes[..] == Detach(fs, parent, i);
      return 0;
    }

    method FindIndex(p: nat, name: string) returns (i: nat)
      requires Valid() && p < NODES
      ensures i == ChildIndex(nodes[..], nodes[p].children, name)
    {
      ghost var fs := nodes[..];
      var ids := nodes[p].children;
      assert ids == fs[p].children;
      i := 0;
      while i < |ids| && nodes[ids[i]].name != name
        invariant i <= |ids| && forall j :: 0 <= j < i ==> fs[ids[j]].name != name
      {
        i := i + 1;
      }
      ChildIndexIs(fs, ids, name, i);
    }

    // The shift loop of ramfs_delete
    method CloseChildren(p: nat, i: nat)
      requires p < nodes.Length && i < |nodes[p].children|
      modifies nodes
      ensures nodes[p] == old(nodes[p]).(children := old(nodes[p].children)[..i] + old(nodes[p].children)[i + 1..])
      ensures forall n :: 0 <= n < nodes.Length && n != p ==> nodes[n] == old(nodes[n])
    {
      ghost var ids, less := nodes[p].children, nodes[p].children[..i] + nodes[p].children[i + 1..];
      var n := |nodes[p].children|;
      var j := i;
      assert ids[..i] == less[..i];
      while j < n - 1
        invariant i <= j <= n - 1 && |nodes[p].children| == n
        invariant nodes[p] == old(nodes[p]).(children := nodes[p].children)
        invariant nodes[p].children[..j] == less[..j] && nodes[p].children[j..] == ids[j..]
        invariant forall k :: 0 <= k < nodes.Length && k != p ==> nodes[k] == old(nodes[k])
      {
        ghost var cur := nodes[p].children;
        assert cur[j..][1] == ids[j..][1] && ids[j + 1] == less[j];
        nodes[p] := nodes[p].(children := nodes[p].children[j := nodes[p].children[j + 1]]);
        assert nodes[p].children[..j + 1] == cur[..j] + [ids[j + 1]] == less[..j + 1];
        assert nodes[p].children[j + 1..] == cur[j..][1..] == ids[j + 1..];
        j := j + 1;
      }
      nodes[p] := nodes[p].(children := nodes[p].children[..n - 1]);
      assert less[..n - 1] == less;
    }

    // ramfs_resolve. A longer path does not fit the 256-byte buffer.
    method Resolve(path: string) returns (n: int)
      requires Valid() && NUL !in path && Fits(path)
      ensures n == Resolved(nodes[..], path)
      ensures IsTree() && n != -1 ==>
        Live(nodes[..], n) && Path(nodes[..], depth, n) == Normal(Split(Body(path), '/'))
    {
      if IsTree() && Resolved(nodes[..], path) != -1 { ResolvedNormal(nodes[..], depth, path); }
      if path == "/" { return 0; }
      var t := new Tokenizer(Body(path));
      n := WalkTokens(t, Split(Body(path), '/'));
    }

    // The strtok loop of ramfs_resolve
    method WalkTokens(t: Tokenizer, ghost toks: seq<string>) returns (n: int)
      requires Valid() && t.Valid() && t.Rest('/') == toks
      modifies t, t.buf
      ensures n == Walk(nodes[..], 0, toks)
    {
      ghost var fs := nodes[..];
      n := 0;
      var ok, tok := t.Next('/');
      while ok
        invariant t.Valid() && Valid() && 0 <= n < NODES && nodes[..] == fs
        invariant Walk(fs, 0, toks) == if ok then Walk(fs, n, [tok] + t.Rest('/')) else n
        decreases ok, |t.Rest('/')|
      {
        n := OneStep(n, tok, t.Rest('/'));
        if n == -1 { return; }
        ok, tok := t.Next('/');
      }
    }

    // One token: stay, go up, or look the name up
    method OneStep(cur: int, tok: string, ghost rest: seq<string>) returns (n: int)
      requires Valid() && 0 <= cur < NODES
      ensures -1 <= n < NODES && n == Step(nodes[..], cur, tok)
      ensures Walk(nodes[..], cur, [tok] + rest) == if n == -1 then -1 else Walk(nodes[..], n, rest)
    {
      assert ([tok] + rest)[1..] == rest;
      n := cur;
      if tok == "." {
      } else if tok == ".." {
        if nodes[n].parent >= 0 && nodes[n].parent != n { n := nodes[n].parent; }
      } else {
        n := FindNode(n, tok);
      }
    }

    // ramfs_abs_path, for names that the 64-byte parts can hold with their terminator
    method AbsPath(node: int) returns (out: string)
      requires IsTree() && (node == -1 || Live(nodes[..], node))
      requires node != -1 ==> forall x :: x in Path(nodes[..], depth, node) ==> |x| < NAME_MAX - 1
      ensures out == if node == -1 then "/" else Printed(nodes[..], depth, node)
    {
      if node == -1 || node == 0 { return "/"; }
      var parts := Climb(node);
      out := PrintParts(parts, LastParts(Path(nodes[..], depth, node)));
    }

    /** ramfs_abs_path and then ramfs_resolve: the node comes back exactly when it is at most 16 levels
        deep. A longer path than 255 characters is not handed to ramfs_resolve. */
    method PrintAndResolve(node: int) returns (path: string, n: int)
      requires IsTree() && Live(nodes[..], node) && GoodNames(Path(nodes[..], depth, node))
      ensures path == Printed(nodes[..], depth, node)
      ensures |path| <= 255 ==> (n == node <==> depth[node] <= MAX_PARTS)
      ensures |path| > 255 ==> n == -1
    {
      path := AbsPath(node);
      PrintThenResolve(nodes[..], depth, node);
      PrintedPlain(nodes[..], depth, node);
      if |path| > 255 { return path, -1; }
      n := Resolve(path);
    }

    // The first loop of ramfs_abs_path: names from the node up, at most 16
    method Climb(node: nat) returns (parts: seq<string>)
      requires IsTree() && Live(nodes[..], node)
      ensures var last := LastParts(Path(nodes[..], depth, node));
        |parts| == |last| && forall i :: 0 <= i < |parts| ==> parts[i] == last[|last| - 1 - i]
    {
      ghost var fs, names := nodes[..], Path(nodes[..], depth, node);
      ghost var up := |names|;
      parts := [];
      var cur: int := node;
      assert names[..up] == names;
      while cur != 0 && |parts| < MAX_PARTS
        invariant Live(fs, cur) && 0 <= up && |parts| + up == |names| && |parts| <= MAX_PARTS
        invariant Path(fs, depth, cur) == names[..up]
        invariant forall i :: 0 <= i < |parts| ==> parts[i] == names[|names| - 1 - i]
        decreases MAX_PARTS - |parts|
      {
        assert HasParent(fs, cur);
        ghost var above := Path(fs, depth, fs[cur].parent);
        assert names[..up] == above + [fs[cur].name];
        assert names[..up][..up - 1] == above && names[..up][up - 1] == fs[cur].name;
        assert names[..up][..up - 1] == names[..up - 1];
        parts := parts + [nodes[cur].name];
        cur := nodes[cur].parent;
        up := up - 1;
      }
      if cur == 0 {
        assert Path(fs, depth, 0) == [];
        assert |names[..up]| == up;
      }
    }

    // ramfs_write; with len 0 the C string at data
    method Write(f: int, data: string, len: nat) returns (r: int)
      requires Valid() && -1 <= f < NODES
      requires if len == 0 then |CString(data)| < |data| else len <= |data|
      modifies nodes
      ensures Valid()
      ensures f == -1 || old(nodes[f]).kind != File ==> r == -1 && nodes[..] == old(nodes[..])
      ensures f != -1 && old(nodes[f]).kind == File ==>
        var bytes := if len == 0 then CString(data) else data[..len];
        && r == (if |bytes| < DATA_MAX then |bytes| else DATA_MAX)
        && nodes[f] == old(nodes[f]).(size := r, data := bytes[..r] + old(nodes[f]).data[r..])
        && forall n :: 0 <= n < NODES && n != f ==> nodes[n] == old(nodes[n])
    {
      if f == -1 || nodes[f].kind != File { return -1; }
      var n := if len == 0 then |CString(data)| else len;
      if n > DATA_MAX { n := DATA_MAX; }
      FrontOf(data, if len == 0 then CString(data) else data[..len], n);
      Store(f, data[..n]);
      return n;
    }

    // memcpy(f->data, data, len); f->size = len
    method Store(f: nat, bytes: string)
      requires Valid() && f < NODES && |bytes| <= DATA_MAX
      modifies nodes
      ensures Valid()
      ensures nodes[f] == old(nodes[f]).(size := |bytes|, data := bytes + old(nodes[f]).data[|bytes|..])
      ensures forall n :: 0 <= n < NODES && n != f ==> nodes[n] == old(nodes[n])
    {
      nodes[f] := nodes[f].(data := bytes + nodes[f].data[|bytes|..]);
      nodes[f] := nodes[f].(size := |bytes|);
    }

    method Read(f: int, len: nat) returns (r: int, buf: string)
      requires Valid() && -1 <= f < NODES
      ensures f == -1 || nodes[f].kind != File ==> r == -1 && buf == ""
      ensures f != -1 && nodes[f].kind == File ==>
        r == |buf| && buf == nodes[f].data[..if nodes[f].size < len then nodes[f].size else len]
    {
      if f == -1 || nodes[f].kind != File { return -1, ""; }
      var n := if nodes[f].size < len then nodes[f].size else len;
      return n, nodes[f].data[..n];
    }
  }

  lemma PrintedPlain(fs: seq<Node>, depth: seq<nat>, n: int)
    requires Tree(fs, depth) && Live(fs, n) && GoodNames(Path(fs, depth, n))
    ensures NUL !in Printed(fs, depth, n)
    ensures |Printed(fs, depth, n)| <= 255 ==> Fits(Printed(fs, depth, n))
  {
    PrintedSlash(fs, depth, n);
    var last := LastParts(Path(fs, depth, n));
    assert GoodNames(last);
    RenderedPlain(last);
  }

  lemma {:induction false} RenderedPlain(names: seq<string>)
    requires GoodNames(names)
    ensures NUL !in Rendered(names, '/')
  {
    if |names| > 0 {
      RenderedPlain(names[1..]);
      assert GoodName(names[0]);
    }
  }

  // The caller's side of keeping the tree: a directory as parent, and a name whose stored form is new
  ghost predicate MayAdd(fs: seq<Node>, parent: int, name: string)
    requires Shape(fs)
  {
    0 <= parent < NODES ==>
      fs[parent].kind == Dir && (Find(fs, parent, name) == -1 ==> Find(fs, parent, Stored(name)) == -1)
  }

  lemma EmptyTree(fs: seq<Node>, depth: seq<nat>)
    requires |fs| == NODES && depth == seq(NODES, _ => 0)
    requires fs[0] == FreeNode.(kind := Dir, name := "/", parent := 0) &&
        forall n :: 0 < n < NODES ==> fs[n] == FreeNode
    ensures Tree(fs, depth)
  {
    OneLive(fs);
  }

  lemma {:induction false} OneLive(fs: seq<Node>)
    requires |fs| > 0 && fs[0].kind != Free && fs[0].children == []
    requires forall n :: 0 < n < |fs| ==> fs[n] == FreeNode
    ensures CountLive(fs) == 1 && CountChildren(fs) == 0
  {
    if |fs| > 1 {
      OneLive(fs[..|fs| - 1]);
    } else {
      assert fs[..0] == [];
    }
  }

  lemma AddKeeps(fs: seq<Node>, depth: seq<nat>, p: nat, k: nat, name: string, node: Node)
    requires Shape(fs) && |depth| == NODES && p < NODES && k < NODES && fs[k].kind == Free
    requires |fs[p].children| < MAX_CHILDREN && Find(fs, p, name) == -1
    requires node.kind != Free && node.name == Stored(name) && node.parent == p && node.size == 0 &&
        |node.data| == DATA_MAX
    requires node.children == [] || node.children == fs[k].children
    ensures Shape(Attach(fs, p, k, node))
    ensures Tree(fs, depth) && MayAdd(fs, p, name) ==> Tree(Attach(fs, p, k, node), depth[k := depth[p] + 1])
  {
    if Tree(fs, depth) && MayAdd(fs, p, name) {
      assert fs[k].children == [];
      AddTree(fs, depth, p, k, node);
    }
  }

  lemma ChildIndexIs(fs: seq<Node>, ids: seq<nat>, name: string, i: nat)
    requires forall j :: 0 <= j < |ids| ==> ids[j] < |fs|
    requires i <= |ids| && (i < |ids| ==> fs[ids[i]].name == name)
    requires forall j :: 0 <= j < i ==> fs[ids[j]].name != name
    ensures ChildIndex(fs, ids, name) == i
  {
  }

  lemma DetachShape(fs: seq<Node>, p: nat, i: nat)
    requires Shape(fs) && p < NODES && i < |fs[p].children|
    ensures Shape(Detach(fs, p, i))
  {
  }

  lemma DeleteKeeps(fs: seq<Node>, depth: seq<nat>, p: nat, i: nat)
    requires Tree(fs, depth) && p < NODES && i < |fs[p].children|
    requires fs[fs[p].children[i]].kind == Dir ==> |fs[fs[p].children[i]].children| == 0
    ensures Tree(Detach(fs, p, i), depth)
  {
    RemoveTree(fs, depth, p, i);
  }

  /** The condition on the parent is needed: a node made under a file breaks the tree for good. */
  lemma CreateUnderFile(fs: seq<Node>, depth: seq<nat>, p: nat, name: string, depth': seq<nat>)
    requires Tree(fs, depth) && p < NODES && fs[p].kind == File && FreeNodeOf(fs) < NODES
    ensures DoCreate(fs, p, name).ret != -1 && !Tree(DoCreate(fs, p, name).nodes, depth')
    ensures DoMkdir(fs, p, name).ret != -1 && !Tree(DoMkdir(fs, p, name).nodes, depth')
  {
    var k := FreeNodeOf(fs);
    var a, b := DoCreate(fs, p, name).nodes, DoMkdir(fs, p, name).nodes;
    assert a[p].kind == File && a[p].children == [k];
    assert b[p].kind == File && b[p].children == [k];
  }
}
