/**
 Paths as text: `ramfs_resolve` reads one, `ramfs_abs_path` prints one (fs/ramfs.c:69-89, 155-173).
 */
module RamPath {
  import opened RamTree
  import opened Tokens

  const MAX_PARTS: nat := 16

  // The path without its leading slash
  function Body(path: string): string {
    if |path| > 0 && path[0] == '/' then path[1..] else path
  }

  // The 256-byte buffer of ramfs_resolve holds the path with its terminator.
  predicate Fits(path: string) { |Body(path)| < 255 }

  // What ramfs_resolve returns for a path that fits its buffer, -1 for NULL
  function Resolved(fs: seq<Node>, path: string): int
    requires Shape(fs)
  {
    if path == "/" then 0 else Walk(fs, 0, Split(Body(path), '/'))
  }

  function LastParts(names: seq<string>): seq<string> {
    if |names| <= MAX_PARTS then names else names[|names| - MAX_PARTS..]
  }

  // What ramfs_abs_path prints: at most the last 16 names
  ghost function Printed(fs: seq<Node>, depth: seq<nat>, n: int): string
    requires Tree(fs, depth) && Live(fs, n)
  {
    if n == 0 then "/" else Rendered(LastParts(Path(fs, depth, n)), '/')
  }

  // A name that survives printing and parsing
  predicate GoodName(name: string) { Piece(name, '/') && Plain(name) && NUL !in name && |name| < NAME_MAX - 1 }

  predicate GoodNames(names: seq<string>) { forall i :: 0 <= i < |names| ==> GoodName(names[i]) }

  lemma ResolvedRendered(fs: seq<Node>, names: seq<string>)
    requires Shape(fs) && |names| > 0 && GoodNames(names)
    ensures Resolved(fs, Rendered(names, '/')) == Walk(fs, 0, names)
  {
    var path := Rendered(names, '/');
    SplitRendered(names, '/');
    SplitSkips(path, '/');
    assert path[1] == names[0][0];
  }

  /** Printing a node's path and resolving it gives back the node, exactly when the node is at most
      16 levels deep and the printed path has at most 255 characters. */
  lemma PrintThenResolve(fs: seq<Node>, depth: seq<nat>, n: int)
    requires Tree(fs, depth) && Live(fs, n) && GoodNames(Path(fs, depth, n))
    ensures var path := Printed(fs, depth, n);
      Fits(path) && Resolved(fs, path) == n <==> depth[n] <= 16 && |path| <= 255
  {
    PrintedSlash(fs, depth, n);
    PrintedResolves(fs, depth, n);
  }

  lemma PrintedSlash(fs: seq<Node>, depth: seq<nat>, n: int)
    requires Tree(fs, depth) && Live(fs, n)
    ensures var path := Printed(fs, depth, n); |path| > 0 && path[0] == '/' && |Body(path)| == |path| - 1
  {
  }

  lemma PrintedResolves(fs: seq<Node>, depth: seq<nat>, n: int)
    requires Tree(fs, depth) && Live(fs, n) && GoodNames(Path(fs, depth, n))
    ensures Resolved(fs, Printed(fs, depth, n)) == n <==> depth[n] <= MAX_PARTS
  {
    var names := Path(fs, depth, n);
    var last := LastParts(names);
    if n != 0 {
      assert GoodNames(last);
      assert PlainPath(last) && PlainPath(names);
      ResolvedRendered(fs, last);
      if depth[n] <= MAX_PARTS {
        WalkPath(fs, depth, n);
      } else if Walk(fs, 0, last) != -1 {
        PathUnique(fs, depth, last);
        assert |last| == MAX_PARTS;
      }
    }
  }

  /** Resolving a path that fits the buffer and printing the node found gives back the path, when it is
      one that `ramfs_abs_path` can print. */
  lemma ResolveThenPrint(fs: seq<Node>, depth: seq<nat>, names: seq<string>)
    requires Tree(fs, depth) && 0 < |names| <= MAX_PARTS && GoodNames(names)
    requires Fits(Rendered(names, '/')) && Resolved(fs, Rendered(names, '/')) != -1
    ensures var n := Resolved(fs, Rendered(names, '/'));
      Live(fs, n) && Printed(fs, depth, n) == Rendered(names, '/')
  {
    ResolvedRendered(fs, names);
    assert PlainPath(names);
    PathUnique(fs, depth, names);
  }

  lemma {:induction false} RenderedAppend(names: seq<string>, x: string)
    ensures Rendered(names + [x], '/') == Rendered(names, '/') + "/" + x
  {
    if |names| == 0 {
      assert ([x])[1..] == [];
    } else {
      assert (names + [x])[1..] == names[1..] + [x];
      RenderedAppend(names[1..], x);
    }
  }

  // ----- Dots in a path -----

  // The names that are left when dots are worked off from left to right: "." is dropped, ".." takes
  // back the name before it, and at the root it takes nothing
  function Normal(toks: seq<string>): (names: seq<string>) {
    if |toks| == 0 then []
    else
      var names, tok := Normal(toks[..|toks| - 1]), toks[|toks| - 1];
      if tok == "." then names
      else if tok == ".." then (if names == [] then [] else names[..|names| - 1])
      else names + [tok]
  }

  lemma {:induction false} NormalPlain(toks: seq<string>)
    ensures PlainPath(Normal(toks))
    ensures PlainPath(toks) ==> Normal(toks) == toks
  {
    if |toks| > 0 {
      var init, tok := toks[..|toks| - 1], toks[|toks| - 1];
      NormalPlain(init);
      assert toks == init + [tok];
      assert PlainPath(toks) ==> PlainPath(init) && Plain(tok);
    }
  }

  // One token, from a node whose path is known
  lemma StepNormal(fs: seq<Node>, depth: seq<nat>, cur: int, tok: string)
    requires Tree(fs, depth) && Live(fs, cur) && Step(fs, cur, tok) != -1
    ensures var names, next := Path(fs, depth, cur), Step(fs, cur, tok);
      && Live(fs, next)
      && Path(fs, depth, next) ==
         if tok == "." then names
         else if tok == ".." then (if names == [] then [] else names[..|names| - 1])
         else names + [tok]
  {
    if tok == ".." {
      assert HasParent(fs, cur);
      if cur != 0 {
        var p := fs[cur].parent;
        assert depth[cur] == depth[p] + 1;
        assert Path(fs, depth, cur)[..|Path(fs, depth, p)|] == Path(fs, depth, p);
      }
    } else if tok != "." {
      FoundLive(fs, cur, tok);
    }
  }

  /** A path that resolves, dots and all, leads to the node whose path is what is left when the dots
      are worked off. */
  lemma {:induction false} WalkNormal(fs: seq<Node>, depth: seq<nat>, toks: seq<string>)
    requires Tree(fs, depth) && Walk(fs, 0, toks) != -1
    ensures var n := Walk(fs, 0, toks); Live(fs, n) && Path(fs, depth, n) == Normal(toks)
    decreases |toks|
  {
    if |toks| > 0 {
      var init, tok := toks[..|toks| - 1], toks[|toks| - 1];
      assert toks == init + [tok];
      WalkLast(fs, 0, init, tok);
      WalkNormal(fs, depth, init);
      StepNormal(fs, depth, Walk(fs, 0, init), tok);
    }
  }

  // Every part of the path, dots worked off, is there.
  ghost predicate EachThere(fs: seq<Node>, toks: seq<string>)
    requires Shape(fs)
  {
    forall k :: 0 <= k <= |toks| ==> There(fs, toks[..k])
  }

  predicate There(fs: seq<Node>, toks: seq<string>)
    requires Shape(fs)
  {
    Walk(fs, 0, Normal(toks)) != -1
  }

  /** And it resolves exactly when every part of it does, also one that ".." takes back. */
  lemma {:induction false} WalkExactly(fs: seq<Node>, depth: seq<nat>, toks: seq<string>)
    requires Tree(fs, depth)
    ensures Walk(fs, 0, toks) != -1 <==> EachThere(fs, toks)
    ensures Walk(fs, 0, toks) != -1 ==> Walk(fs, 0, Normal(toks)) == Walk(fs, 0, toks)
    decreases |toks|
  {
    if |toks| > 0 {
      var init, tok := toks[..|toks| - 1], toks[|toks| - 1];
      assert toks == init + [tok];
      WalkLast(fs, 0, init, tok);
      WalkExactly(fs, depth, init);
      EachPart(fs, toks);
      NormalPlain(toks);
      NormalPlain(init);
      if Walk(fs, 0, toks) != -1 {
        WalkNormal(fs, depth, toks);
        WalkPath(fs, depth, Walk(fs, 0, toks));
      } else if Walk(fs, 0, init) != -1 {
        WalkLast(fs, 0, Normal(init), tok);
      }
    }
  }

  lemma EachPart(fs: seq<Node>, toks: seq<string>)
    requires Shape(fs) && |toks| > 0
    ensures EachThere(fs, toks) <==> EachThere(fs, toks[..|toks| - 1]) && There(fs, toks)
  {
    var init := toks[..|toks| - 1];
    assert toks[..|toks|] == toks;
    forall k | 0 <= k <= |init| ensures init[..k] == toks[..k] {
    }
    if EachThere(fs, init) && There(fs, toks) {
      forall k | 0 <= k <= |toks| ensures There(fs, toks[..k]) {
        if k <= |init| { assert There(fs, init[..k]); }
      }
    }
  }

  /** For ramfs_resolve: the node found is the one with the worked-off path. */
  lemma ResolvedNormal(fs: seq<Node>, depth: seq<nat>, path: string)
    requires Tree(fs, depth) && Resolved(fs, path) != -1
    ensures var n := Resolved(fs, path); Live(fs, n) && Path(fs, depth, n) == Normal(Split(Body(path), '/'))
  {
    assert path == "/" ==> Body(path) == "";
    WalkNormal(fs, depth, Split(Body(path), '/'));
  }

  // ----- Directory and file name of a path -----

  // Position after the last slash, 0 if there is none
  function BaseStart(path: string): (k: nat)
    ensures k <= |path| && '/' !in path[k..] && (k > 0 ==> path[k - 1] == '/')
  {
    if |path| == 0 || path[|path| - 1] == '/' then |path|
    else
      var k := BaseStart(path[..|path| - 1]);
      assert path[k..] == path[..|path| - 1][k..] + [path[|path| - 1]];
      k
  }

  function DirOf(path: string): string { path[..BaseStart(path)] }

  function BaseOf(path: string): string { path[BaseStart(path)..] }

  // The loop `for(p=path;*p;p++) if(*p=='/') last=p+1;`
  method FindBase(path: string) returns (last: nat)
    ensures last == BaseStart(path)
  {
    last := 0;
    var p := 0;
    while p < |path|
      invariant 0 <= p <= |path| && last == BaseStart(path[..p])
    {
      assert path[..p + 1][..p] == path[..p];
      if path[p] == '/' { last := p + 1; }
      p := p + 1;
    }
    assert path[..p] == path;
  }

  lemma BaseStartIs(dir: string, base: string)
    requires '/' !in base && |dir| > 0 && dir[|dir| - 1] == '/'
    ensures DirOf(dir + base) == dir && BaseOf(dir + base) == base
  {
    var path := dir + base;
    var k := BaseStart(path);
    assert path[|dir|..] == base;
    assert k == |dir|;
  }

  lemma {:induction false} SplitTrailing(names: seq<string>)
    requires forall i :: 0 <= i < |names| ==> Piece(names[i], '/')
    ensures Split(Rendered(names, '/') + "/", '/') == names
  {
    if |names| == 0 {
      assert Rendered(names, '/') + "/" == "/";
      assert "/"[1..] == "";
    } else {
      var x, rest := names[0], Rendered(names[1..], '/') + "/";
      var path := Rendered(names, '/') + "/";
      assert path == "/" + (x + rest);
      SplitSkips(path, '/');
      assert path[1..] == x + rest;
      SplitTrailing(names[1..]);
      assert rest[0] == '/';
      assert (x + rest)[..|x|] == x && (x + rest)[|x|..] == rest;
      PieceLenIs(x + rest, '/', |x|);
    }
  }

  /** The directory part and the base of a canonical path are its parent's path and its last name. */
  lemma SplitCanonical(fs: seq<Node>, init: seq<string>, x: string)
    requires Shape(fs) && GoodNames(init) && GoodName(x)
    ensures var path := Rendered(init + [x], '/');
      && BaseOf(path) == x
      && Resolved(fs, DirOf(path)) == Walk(fs, 0, init)
      && Split(Body(DirOf(path)), '/') == init
  {
    var dir := Rendered(init, '/') + "/";
    RenderedAppend(init, x);
    BaseStartIs(dir, x);
    SplitTrailing(init);
    SplitSkips(dir, '/');
    assert dir[0] == '/';
    if |init| > 0 {
      assert Rendered(init, '/') == "/" + init[0] + Rendered(init[1..], '/');
      assert |dir| > 1;
    }
  }
}
