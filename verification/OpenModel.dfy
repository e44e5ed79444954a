/**
 Which node `sys_open` opens (kernel/syscall.c:114-149): the resolved one, or with O_CREAT a new
 file in the directory of the path, and in the root when that directory does not resolve.
 */
module OpenModel {
  import opened RamTree
  import opened RamPath
  import opened Tokens

  // char dir[256]: the part up to the last slash, "/" if there is none
  function DirString(path: string): string {
    if DirOf(path) == "" then "/" else DirOf(path)
  }

  function ParentOf(fs: seq<Node>, path: string): (p: int)
    requires Shape(fs)
    ensures 0 <= p < NODES
  {
    if Resolved(fs, DirString(path)) == -1 then 0 else Resolved(fs, DirString(path))
  }

  function OpenNode(fs: seq<Node>, path: string, creat: bool): Change
    requires Shape(fs)
  {
    if Resolved(fs, path) != -1 || !creat then Change(fs, Resolved(fs, path))
    else DoCreate(fs, ParentOf(fs, path), BaseOf(path))
  }

  // ----- Cutting a path into directory and base cuts off the last token -----

  lemma {:induction false} SplitLast(s: string, base: string, d: char)
    requires Piece(base, d) && (s == "" || s[|s| - 1] == d)
    ensures Split(s + base, d) == Split(s, d) + [base]
    decreases |s|
  {
    if s == "" {
      assert s + base == base && base[..|base|] == base;
      PieceLenIs(base, d, |base|);
    } else if s[0] == d {
      SplitSkips(s + base, d);
      assert (s + base)[1..] == s[1..] + base;
      SplitLast(s[1..], base, d);
    } else {
      var k := PieceLen(s, d);
      assert d in s[k..] by { assert s[k..][|s| - 1 - k] == d; }
      FrontPiece(s, base, d);
      SplitLast(s[k..], base, d);
    }
  }

  // The first token ends where it did.
  lemma FrontPiece(s: string, base: string, d: char)
    requires PieceLen(s, d) < |s|
    ensures var k := PieceLen(s, d);
      PieceLen(s + base, d) == k && (s + base)[..k] == s[..k] && (s + base)[k..] == s[k..] + base
  {
    PieceLenIs(s + base, d, PieceLen(s, d));
  }

  lemma SplitDirBase(path: string)
    requires BaseOf(path) != ""
    ensures Split(Body(path), '/') == Split(Body(DirOf(path)), '/') + [BaseOf(path)]
  {
    var dir, base := DirOf(path), BaseOf(path);
    assert path == dir + base;
    assert Body(path) == Body(dir) + base;
    SplitLast(Body(dir), base, '/');
  }

  lemma ResolvedWalk(fs: seq<Node>, path: string)
    requires Shape(fs)
    ensures Resolved(fs, path) == Walk(fs, 0, Split(Body(path), '/'))
    ensures Resolved(fs, DirString(path)) == Walk(fs, 0, Split(Body(DirOf(path)), '/'))
  {
  }

  // ----- Opening again after a create -----

  // A walk that succeeded still does, dots and all.
  lemma {:induction false} WalkStays(fs: seq<Node>, depth: seq<nat>, p: nat, k: nat, node: Node, cur: int,
      toks: seq<string>)
    requires CanAdd(fs, depth, p, k, node) && Live(fs, cur) && Walk(fs, cur, toks) != -1
    ensures Shape(Attach(fs, p, k, node))
    ensures Walk(Attach(fs, p, k, node), cur, toks) == Walk(fs, cur, toks)
    ensures Live(fs, Walk(fs, cur, toks))
    decreases |toks|
  {
    AddShape(fs, depth, p, k, node);
    if |toks| > 0 {
      var next := Step(fs, cur, toks[0]);
      StepStays(fs, depth, p, k, node, cur, toks[0]);
      WalkStays(fs, depth, p, k, node, next, toks[1..]);
    }
  }

  lemma StepStays(fs: seq<Node>, depth: seq<nat>, p: nat, k: nat, node: Node, cur: int, tok: string)
    requires CanAdd(fs, depth, p, k, node) && Live(fs, cur) && Step(fs, cur, tok) != -1
    ensures Shape(Attach(fs, p, k, node))
    ensures Step(Attach(fs, p, k, node), cur, tok) == Step(fs, cur, tok)
    ensures Live(fs, Step(fs, cur, tok))
  {
    AddShape(fs, depth, p, k, node);
    assert HasParent(fs, cur);
    if Plain(tok) {
      FindAdded(fs, depth, p, k, node, cur, tok);
      FoundLive(fs, cur, tok);
    }
  }

  // The node made by an open that creates
  lemma Created(fs: seq<Node>, depth: seq<nat>, path: string)
    requires Tree(fs, depth) && Resolved(fs, path) == -1 && |BaseOf(path)| < NAME_MAX
    requires fs[ParentOf(fs, path)].kind == Dir && Find(fs, ParentOf(fs, path), BaseOf(path)) == -1
    requires OpenNode(fs, path, true).ret != -1
    ensures var p, k := ParentOf(fs, path), OpenNode(fs, path, true).ret;
      && 0 <= k < NODES
      && CanAdd(fs, depth, p, k, NewNode(fs[k], File, BaseOf(path), p))
      && OpenNode(fs, path, true).nodes == Attach(fs, p, k, NewNode(fs[k], File, BaseOf(path), p))
  {
  }

  /** A file that open creates is found by a later open of the same path, if the directory of the
      path resolved to a directory. */
  lemma CreateOpens(fs: seq<Node>, depth: seq<nat>, path: string)
    requires Tree(fs, depth) && Resolved(fs, path) == -1 && |BaseOf(path)| < NAME_MAX
    requires DirThere(fs, path) && OpenNode(fs, path, true).ret != -1
    ensures Shape(OpenNode(fs, path, true).nodes)
    ensures Resolved(OpenNode(fs, path, true).nodes, path) == OpenNode(fs, path, true).ret
  {
    var p, k, base, dir := ParentOf(fs, path), OpenNode(fs, path, true).ret, BaseOf(path),
        Split(Body(DirOf(path)), '/');
    DirUnresolved(fs, path);
    Created(fs, depth, path);
    var node := NewNode(fs[k], File, base, p);
    var fs' := Attach(fs, p, k, node);
    WalkStays(fs, depth, p, k, node, 0, dir);
    SplitDirBase(path);
    WalkLast(fs', 0, dir, base);
    FindAdded(fs, depth, p, k, node, p, base);
  }

  /** When the directory of the path does not resolve, open with O_CREAT takes the file of that base name in
      the root, or makes one there; it fails exactly without room in the root. */
  lemma MissingDirectory(fs: seq<Node>, depth: seq<nat>, path: string)
    requires Tree(fs, depth) && Resolved(fs, path) == -1 && Resolved(fs, DirString(path)) == -1
    requires |BaseOf(path)| < NAME_MAX
    ensures var o := OpenNode(fs, path, true);
      && Shape(o.nodes)
      && (o.ret == -1 <==> |fs[0].children| >= 32 || (Find(fs, 0, BaseOf(path)) == -1 && FreeNodeOf(fs) == 128))
      && (o.ret != -1 ==> Find(o.nodes, 0, BaseOf(path)) == o.ret)
  {
    var o, k, base := OpenNode(fs, path, true), FreeNodeOf(fs), BaseOf(path);
    if Find(fs, 0, base) == -1 && o.ret != -1 {
      assert fs[k].children == [];
      FindAdded(fs, depth, 0, k, NewNode(fs[k], File, base, 0), 0, base);
    }
  }

  lemma NoBase(path: string)
    requires BaseOf(path) == ""
    ensures DirOf(path) == path
  {
    AllDir(path, DirOf(path), BaseOf(path));
  }

  lemma AllDir(path: string, dir: string, base: string)
    requires path == dir + base && |base| == 0
    ensures dir == path
  {
  }

  // If only the last token of a path fails, it is an ordinary name missing in its directory.
  lemma DirUnresolved(fs: seq<Node>, path: string)
    requires Shape(fs) && Resolved(fs, path) == -1 && Resolved(fs, DirString(path)) != -1
    ensures BaseOf(path) != "" && Plain(BaseOf(path)) && Find(fs, ParentOf(fs, path), BaseOf(path)) == -1
  {
    var dir := Split(Body(DirOf(path)), '/');
    if BaseOf(path) == "" {
      NoBase(path);
    } else {
      SplitDirBase(path);
      WalkLast(fs, 0, dir, BaseOf(path));
    }
  }

  // What DoCreate does to a pool when its parent is a file: the new node hangs below the file.
  lemma BelowFile(fs: seq<Node>, depth: seq<nat>, p: nat, k: nat, node: Node, d: nat, x: string)
    requires Tree(fs, depth) && p < NODES && fs[p].kind == File && k < NODES && fs[k].kind == Free
    requires node.kind == File && node.parent == p && d < NODES && fs[d].kind != Free
    ensures var r := Attach(fs, p, k, node);
      && r[d].kind == fs[d].kind && r[d].parent == fs[d].parent
      && (fs[d].kind == Dir ==> FindFrom(r, r[d].children, x) == FindFrom(fs, fs[d].children, x))
  {
    var r := Attach(fs, p, k, node);
    if fs[d].kind == Dir {
      assert OwnsChildren(fs, d);
      FindFromSame(fs, r, fs[d].children, x);
    }
  }

  // No path leads to it: every path resolves as before.
  lemma {:induction false} FileBlocks(fs: seq<Node>, depth: seq<nat>, p: nat, k: nat, node: Node, cur: int,
      toks: seq<string>)
    requires Tree(fs, depth) && p < NODES && fs[p].kind == File && k < NODES && fs[k].kind == Free
    requires node.kind == File && node.parent == p && node.size == 0 && |node.data| == DATA_MAX && node.children == []
    requires Live(fs, cur) && PlainPath(toks)
    ensures Shape(Attach(fs, p, k, node)) && Walk(Attach(fs, p, k, node), cur, toks) == Walk(fs, cur, toks)
    decreases |toks|
  {
    if |toks| > 0 {
      BelowFile(fs, depth, p, k, node, cur, toks[0]);
      var next := Step(fs, cur, toks[0]);
      if next != -1 {
        FoundLive(fs, cur, toks[0]);
        FileBlocks(fs, depth, p, k, node, next, toks[1..]);
      }
    }
  }

  lemma CreateBelowFile(fs: seq<Node>, depth: seq<nat>, path: string)
    requires Tree(fs, depth) && Resolved(fs, path) == -1 && PlainPath(Split(Body(path), '/'))
    requires fs[ParentOf(fs, path)].kind == File && OpenNode(fs, path, true).ret != -1
    ensures Shape(OpenNode(fs, path, true).nodes) && Resolved(OpenNode(fs, path, true).nodes, path) == -1
  {
    var p, k, base := ParentOf(fs, path), OpenNode(fs, path, true).ret, BaseOf(path);
    assert Find(fs, p, base) == -1;
    assert fs[k].children == [];
    FileBlocks(fs, depth, p, k, NewNode(fs[k], File, base, p), 0, Split(Body(path), '/'));
  }

  // The directory part of a path resolves to a directory.
  predicate DirThere(fs: seq<Node>, path: string)
    requires Shape(fs)
  {
    Resolved(fs, DirString(path)) != -1 && fs[Resolved(fs, DirString(path))].kind == Dir
  }

  /** Without dots in the path the condition is exact. A file that open puts into the root because the
      directory is missing or the path ends in a slash, or below a file because the directory part
      names one, is not found under the path it was created with. */
  lemma CreateOpensExactly(fs: seq<Node>, depth: seq<nat>, path: string)
    requires Tree(fs, depth) && Resolved(fs, path) == -1 && |BaseOf(path)| < NAME_MAX
    requires PlainPath(Split(Body(path), '/'))
    requires OpenNode(fs, path, true).ret != -1
    ensures Shape(OpenNode(fs, path, true).nodes)
    ensures Resolved(OpenNode(fs, path, true).nodes, path) == OpenNode(fs, path, true).ret <==> DirThere(fs, path)
    ensures !DirThere(fs, path) ==> Resolved(OpenNode(fs, path, true).nodes, path) == -1
  {
    if BaseOf(path) == "" {
      TrailingSlash(fs, depth, path);
    } else if DirThere(fs, path) {
      CreateOpens(fs, depth, path);
    } else if Resolved(fs, DirString(path)) != -1 {
      ParentLive(fs, depth, path);
      CreateBelowFile(fs, depth, path);
    } else {
      CreateInRoot(fs, depth, path);
    }
  }

  // A path that ends in a slash: the node gets an empty name in the root, which no path leads to.
  lemma TrailingSlash(fs: seq<Node>, depth: seq<nat>, path: string)
    requires Tree(fs, depth) && Resolved(fs, path) == -1 && BaseOf(path) == ""
    requires PlainPath(Split(Body(path), '/')) && OpenNode(fs, path, true).ret != -1
    ensures !DirThere(fs, path) && Shape(OpenNode(fs, path, true).nodes)
    ensures Resolved(OpenNode(fs, path, true).nodes, path) == -1
  {
    var k, toks := OpenNode(fs, path, true).ret, Split(Body(path), '/');
    NoBase(path);
    assert path != "" && DirString(path) == path;
    if Find(fs, 0, "") == -1 {
      Created(fs, depth, path);
      SplitPieces(Body(path), '/');
      WalkAdded(fs, depth, 0, k, NewNode(fs[k], File, "", 0), toks);
    }
  }

  lemma ParentLive(fs: seq<Node>, depth: seq<nat>, path: string)
    requires Tree(fs, depth) && PlainPath(Split(Body(path), '/')) && BaseOf(path) != ""
    ensures Resolved(fs, DirString(path)) != -1 ==> fs[Resolved(fs, DirString(path))].kind != Free
  {
    var dir := Split(Body(DirOf(path)), '/');
    SplitDirBase(path);
    assert PlainPath(dir) by {
      assert forall i :: 0 <= i < |dir| ==> dir[i] == Split(Body(path), '/')[i];
    }
    WalkFree(fs, depth, dir);
  }

  lemma CreateInRoot(fs: seq<Node>, depth: seq<nat>, path: string)
    requires Tree(fs, depth) && Resolved(fs, path) == -1 && |BaseOf(path)| < NAME_MAX
    requires PlainPath(Split(Body(path), '/')) && BaseOf(path) != ""
    requires Resolved(fs, DirString(path)) == -1 && OpenNode(fs, path, true).ret != -1
    ensures Shape(OpenNode(fs, path, true).nodes)
    ensures Resolved(OpenNode(fs, path, true).nodes, path) == -1
  {
    var k, base, toks := OpenNode(fs, path, true).ret, BaseOf(path), Split(Body(path), '/');
    SplitDirBase(path);
    assert Plain(toks[|toks| - 1]);
    if Find(fs, 0, base) == -1 {
      Created(fs, depth, path);
      WalkAdded(fs, depth, 0, k, NewNode(fs[k], File, base, 0), toks);
      assert |toks| != 1;
    }
  }
}
