/**
 What installing a package does to RamFS (pkg/spk.c:28-65), as a map from paths to files.
 */
module SpkModel {
  import opened RamTree
  import opened RamView
  import opened FileStream
  import opened OpenModel
  import opened RamPath
  import opened Tokens

  // One entry of the file table
  datatype Item = Item(path: string, bytes: seq<char>)

  function Names(path: string): seq<string> { Split(Body(path), '/') }

  datatype Place = Place(nodes: seq<Node>, dir: nat)

  // The loop that makes the intermediate directories; a name that cannot be made is skipped.
  function MakeDirs(fs: seq<Node>, p: nat, toks: seq<string>): (r: Place)
    requires Shape(fs) && p < NODES
    ensures Shape(r.nodes) && r.dir < NODES
    decreases |toks|
  {
    if |toks| == 0 then Place(fs, p)
    else if Find(fs, p, toks[0]) != -1 then MakeDirs(fs, Find(fs, p, toks[0]), toks[1..])
    else
      var c := DoMkdir(fs, p, toks[0]);
      MakeDirs(c.nodes, if c.ret == -1 then p else c.ret, toks[1..])
  }

  // ramfs_find, ramfs_create, ramfs_write of the base
  function PutFile(fs: seq<Node>, p: nat, base: string, bytes: seq<char>): (r: seq<Node>)
    requires Shape(fs) && p < NODES && |bytes| <= DATA_MAX
    ensures Shape(r)
  {
    var c := if Find(fs, p, base) != -1 then Change(fs, Find(fs, p, base)) else DoCreate(fs, p, base);
    if c.ret != -1 && c.nodes[c.ret].kind == File then Filled(c.nodes, c.ret, bytes) else c.nodes
  }

  // One entry of the package: where its directory resolves nothing is made.
  function Extracted(fs: seq<Node>, dir: seq<string>, base: string, bytes: seq<char>): (r: seq<Node>)
    requires Shape(fs)
    ensures Shape(r)
  {
    var d := if Walk(fs, 0, dir) != -1 then Place(fs, Walk(fs, 0, dir)) else MakeDirs(fs, 0, dir);
    PutFile(d.nodes, d.dir, base, Upto(bytes, DATA_MAX))
  }

  // Where the directory resolves, no directory is made.
  lemma {:induction false} MakeNone(fs: seq<Node>, p: nat, toks: seq<string>)
    requires Shape(fs) && p < NODES && PlainPath(toks) && Walk(fs, p, toks) != -1
    ensures MakeDirs(fs, p, toks) == Place(fs, Walk(fs, p, toks))
    decreases |toks|
  {
    if |toks| > 0 {
      MakeNone(fs, Find(fs, p, toks[0]), toks[1..]);
    }
  }

  // ----- Room -----

  function Unused(fs: seq<Node>): int { |fs| - CountLive(fs) }

  lemma {:induction false} CountFull(fs: seq<Node>)
    ensures CountLive(fs) <= |fs|
    ensures CountLive(fs) == |fs| ==> forall i :: 0 <= i < |fs| ==> fs[i].kind != Free
  {
    if |fs| > 0 {
      CountFull(fs[..|fs| - 1]);
      assert forall i :: 0 <= i < |fs| - 1 ==> fs[..|fs| - 1][i] == fs[i];
    }
  }

  lemma {:induction false} AllLive(fs: seq<Node>)
    requires forall i :: 0 <= i < |fs| ==> fs[i].kind != Free
    ensures CountLive(fs) == |fs|
  {
    if |fs| > 0 {
      AllLive(fs[..|fs| - 1]);
    }
  }

  lemma FreeFound(fs: seq<Node>)
    requires |fs| == NODES
    ensures FreeNodeOf(fs) < NODES <==> Unused(fs) > 0
  {
    CountFull(fs);
    if FreeNodeOf(fs) == NODES { AllLive(fs); }
  }

  // From p on, the names that exist are followed; the first that does not needs a child slot there,
  // and it and every later one needs a node.
  ghost predicate Enough(fs: seq<Node>, p: nat, toks: seq<string>)
    requires Shape(fs) && p < NODES
    decreases |toks|
  {
    |toks| > 0 ==>
      if Find(fs, p, toks[0]) != -1 then Enough(fs, Find(fs, p, toks[0]), toks[1..])
      else |fs[p].children| < MAX_CHILDREN && Unused(fs) >= |toks|
  }

  predicate ShortNames(toks: seq<string>) { forall i :: 0 <= i < |toks| ==> |toks[i]| < NAME_MAX }

  // No name on the way is a file.
  ghost predicate NoFile(fs: seq<Node>, path: seq<string>, from: nat)
    requires Shape(fs)
  {
    forall k :: from <= k <= |path| ==> !At(fs, path[..k]).Holding?
  }

  predicate Prefix(q: seq<string>, path: seq<string>) { |q| <= |path| && path[..|q|] == q }

  // The missing directories of a path are there now, everything else is as it was.
  ghost predicate Grown(fs: seq<Node>, fs': seq<Node>, path: seq<string>) {
    Shape(fs) && Shape(fs') &&
    forall q :: PlainPath(q) ==>
      At(fs', q) == if Prefix(q, path) && At(fs, q) == Nothing then Directory else At(fs, q)
  }

  // ----- One entry -----

  lemma PrefixThere(fs: seq<Node>, path: seq<string>, q: seq<string>)
    requires IsTree(fs) && PlainPath(path) && Walk(fs, 0, path) != -1 && Prefix(q, path)
    ensures At(fs, q) != Nothing
  {
    assert path == q + path[|q|..];
    WalkConcat(fs, 0, q, path[|q|..]);
    assert PlainPath(q) by {
      assert forall i :: 0 <= i < |q| ==> q[i] == path[i];
    }
    AtNothing(fs, q);
  }

  lemma GrownNothing(fs: seq<Node>, path: seq<string>)
    requires IsTree(fs) && PlainPath(path) && Walk(fs, 0, path) != -1
    ensures Grown(fs, fs, path)
  {
    forall q | PlainPath(q) ensures Prefix(q, path) ==> At(fs, q) != Nothing {
      if Prefix(q, path) { PrefixThere(fs, path, q); }
    }
  }

  lemma GrownMore(fs: seq<Node>, fs1: seq<Node>, fs': seq<Node>, path: seq<string>, q1: seq<string>)
    requires Changed(fs, fs1, q1, Directory) && Grown(fs1, fs', path)
    requires Prefix(q1, path) && At(fs, q1) == Nothing
    ensures Grown(fs, fs', path)
  {
  }

  // A name that exists
  lemma NextThere(fs: seq<Node>, done: seq<string>, x: string)
    requires IsTree(fs) && PlainPath(done + [x]) && Walk(fs, 0, done) != -1 && At(fs, done) == Directory
    requires !At(fs, done + [x]).Holding?
    ensures Walk(fs, 0, done + [x]) == Find(fs, Walk(fs, 0, done), x)
    ensures Find(fs, Walk(fs, 0, done), x) != -1 ==> At(fs, done + [x]) == Directory
    ensures Find(fs, Walk(fs, 0, done), x) == -1 ==> At(fs, done + [x]) == Nothing
  {
    AtPrefix(fs, done, x);
    AtNothing(fs, done + [x]);
  }

  // A name that is made
  lemma NextMade(fs: seq<Node>, done: seq<string>, rest: seq<string>)
    requires IsTree(fs) && |rest| > 1 && PlainPath(done + [rest[0]]) && ShortNames(rest)
    requires Walk(fs, 0, done) != -1 && At(fs, done) == Directory
    requires Find(fs, Walk(fs, 0, done), rest[0]) == -1 && Enough(fs, Walk(fs, 0, done), rest)
    ensures var c := DoMkdir(fs, Walk(fs, 0, done), rest[0]);
      && c.ret != -1 && IsTree(c.nodes) && Changed(fs, c.nodes, done + [rest[0]], Directory)
      && Walk(c.nodes, 0, done + [rest[0]]) == c.ret && Enough(c.nodes, c.ret, rest[1..])
  {
    var p := Walk(fs, 0, done);
    FreeFound(fs);
    MkdirAt(fs, done, rest[0]);
    var c := DoMkdir(fs, p, rest[0]);
    MkdirTakes(fs, p, rest[0]);
  }

  lemma MkdirTakes(fs: seq<Node>, p: nat, x: string)
    requires Shape(fs) && p < NODES && DoMkdir(fs, p, x).ret != -1 && FreeNodeOf(fs) != p
    ensures Unused(DoMkdir(fs, p, x).nodes) == Unused(fs) - 1
  {
    var k := FreeNodeOf(fs);
    var node := NewNode(fs[k], Dir, x, p).(children := []);
    var fs1 := fs[k := node];
    CountUpdate(fs, k, node);
    CountUpdate(fs1, p, fs1[p].(children := fs1[p].children + [k]));
  }

  // The loop stands at the directory `done`, with the names `rest` before it.
  ghost predicate Ready(fs: seq<Node>, done: seq<string>, rest: seq<string>, base: string) {
    && IsTree(fs) && PlainPath(done + rest) && ShortNames(rest + [base])
    && Walk(fs, 0, done) != -1 && At(fs, done) == Directory && NoFile(fs, done + rest, |done|)
    && Enough(fs, Walk(fs, 0, done), rest + [base])
  }

  lemma ReadyParts(fs: seq<Node>, done: seq<string>, rest: seq<string>, base: string)
    requires Ready(fs, done, rest, base) && |rest| > 0
    ensures var x, more := rest[0], rest[1..];
      && done + [x] + more == done + rest && (done + rest)[..|done| + 1] == done + [x]
      && (rest + [base])[1..] == more + [base] && (rest + [base])[0] == x
      && PlainPath(done + [x]) && !At(fs, done + [x]).Holding?
  {
    var path := done + rest;
    assert path[..|done| + 1] == done + [rest[0]];
    assert forall i :: 0 <= i <= |done| ==> (done + [rest[0]])[i] == path[i];
  }

  lemma ReadyFound(fs: seq<Node>, done: seq<string>, rest: seq<string>, base: string)
    requires Ready(fs, done, rest, base) && |rest| > 0 && Find(fs, Walk(fs, 0, done), rest[0]) != -1
    ensures Ready(fs, done + [rest[0]], rest[1..], base)
    ensures Walk(fs, 0, done + [rest[0]]) == Find(fs, Walk(fs, 0, done), rest[0])
  {
    ReadyParts(fs, done, rest, base);
    NextThere(fs, done, rest[0]);
    assert ShortNames(rest[1..] + [base]) by {
      assert forall i :: 0 <= i < |rest| ==> (rest + [base])[1..][i] == (rest + [base])[i + 1];
    }
  }

  lemma ReadyMade(fs: seq<Node>, done: seq<string>, rest: seq<string>, base: string)
    requires Ready(fs, done, rest, base) && |rest| > 0 && Find(fs, Walk(fs, 0, done), rest[0]) == -1
    ensures var c := DoMkdir(fs, Walk(fs, 0, done), rest[0]);
      && c.ret != -1 && Ready(c.nodes, done + [rest[0]], rest[1..], base)
      && Walk(c.nodes, 0, done + [rest[0]]) == c.ret
      && At(fs, done + [rest[0]]) == Nothing && Changed(fs, c.nodes, done + [rest[0]], Directory)
  {
    var x, more := rest[0], rest[1..];
    ReadyParts(fs, done, rest, base);
    NextThere(fs, done, x);
    NextMade(fs, done, rest + [base]);
    var fs1 := DoMkdir(fs, Walk(fs, 0, done), x).nodes;
    NoFileNext(fs, fs1, done + [x], more);
    assert ShortNames(more + [base]) by {
      assert forall i :: 0 <= i < |rest| ==> (rest + [base])[1..][i] == (rest + [base])[i + 1];
    }
  }

  lemma NoFileNext(fs: seq<Node>, fs1: seq<Node>, done: seq<string>, more: seq<string>)
    requires |done| > 0 && Changed(fs, fs1, done, Directory) && PlainPath(done + more) &&
        NoFile(fs, done + more, |done| - 1)
    ensures NoFile(fs1, done + more, |done|)
  {
    var path := done + more;
    forall k | |done| <= k <= |path| ensures !At(fs1, path[..k]).Holding? {
      assert PlainPath(path[..k]);
    }
  }

  /** The loop makes exactly the missing directories. */
  lemma {:induction false} MakeDirsGrow(fs: seq<Node>, done: seq<string>, rest: seq<string>, base: string)
    requires Ready(fs, done, rest, base)
    ensures var d := MakeDirs(fs, Walk(fs, 0, done), rest);
      && IsTree(d.nodes) && Walk(d.nodes, 0, done + rest) == d.dir && At(d.nodes, done + rest) == Directory
      && Enough(d.nodes, d.dir, [base]) && Grown(fs, d.nodes, done + rest)
    decreases |rest|
  {
    var p := Walk(fs, 0, done);
    if |rest| == 0 {
      assert done + rest == done && rest + [base] == [base];
      GrownNothing(fs, done);
    } else {
      var x, more, path := rest[0], rest[1..], done + rest;
      ReadyParts(fs, done, rest, base);
      if Find(fs, p, x) != -1 {
        ReadyFound(fs, done, rest, base);
        MakeDirsGrow(fs, done + [x], more, base);
      } else {
        ReadyMade(fs, done, rest, base);
        var c := DoMkdir(fs, p, x);
        MakeDirsGrow(c.nodes, done + [x], more, base);
        GrownMore(fs, c.nodes, MakeDirs(c.nodes, c.ret, more).nodes, path, done + [x]);
      }
    }
  }

  // The file itself
  lemma PutFileAt(fs: seq<Node>, dir: seq<string>, base: string, bytes: seq<char>)
    requires IsTree(fs) && PlainPath(dir + [base]) && |base| < NAME_MAX && |bytes| <= DATA_MAX
    requires Walk(fs, 0, dir) != -1 && At(fs, dir) == Directory && At(fs, dir + [base]) != Directory
    requires Enough(fs, Walk(fs, 0, dir), [base])
    ensures var fs' := PutFile(fs, Walk(fs, 0, dir), base, bytes);
      IsTree(fs') && Changed(fs, fs', dir + [base], Holding(bytes))
  {
    var p, path := Walk(fs, 0, dir), dir + [base];
    AtPrefix(fs, dir, base);
    AtNothing(fs, path);
    if Find(fs, p, base) != -1 {
      WriteAt(fs, path, bytes);
    } else {
      FreeFound(fs);
      CreateAt(fs, dir, base);
      WriteAt(DoCreate(fs, p, base).nodes, path, bytes);
    }
  }

  // The path names the bytes, its missing directories are there, everything else is as it was.
  ghost predicate Holds(fs: seq<Node>, fs': seq<Node>, path: seq<string>, bytes: seq<char>) {
    Shape(fs) && Shape(fs') &&
    forall q :: PlainPath(q) ==>
      At(fs', q) == if q == path then Holding(bytes)
                    else if Prefix(q, path) && At(fs, q) == Nothing then Directory
                    else At(fs, q)
  }

  // What an entry needs: no file in the way, no directory in its place, and room
  ghost predicate Installable(fs: seq<Node>, path: seq<string>) {
    && IsTree(fs) && |path| > 0 && PlainPath(path) && ShortNames(path)
    && NoFile(fs, path[..|path| - 1], 0) && At(fs, path) != Directory && Enough(fs, 0, path)
  }

  /** One entry: exactly its file and the missing directories of its path appear. */
  lemma ExtractedHolds(fs: seq<Node>, dir: seq<string>, base: string, bytes: seq<char>)
    requires Installable(fs, dir + [base])
    ensures IsTree(Extracted(fs, dir, base, bytes))
    ensures Holds(fs, Extracted(fs, dir, base, bytes), dir + [base], Upto(bytes, DATA_MAX))
  {
    var path, b := dir + [base], Upto(bytes, DATA_MAX);
    assert path[..|path| - 1] == dir;
    assert PlainPath(dir) by {
      assert forall i :: 0 <= i < |dir| ==> dir[i] == path[i];
    }
    RootThere(fs);
    if Walk(fs, 0, dir) != -1 { MakeNone(fs, 0, dir); }
    assert [] + dir == dir;
    MakeDirsGrow(fs, [], dir, base);
    var d := MakeDirs(fs, 0, dir);
    assert !Prefix(path, dir);
    PutFileAt(d.nodes, dir, base, b);
    HoldsAfter(fs, d.nodes, Extracted(fs, dir, base, bytes), dir, base, b);
  }

  lemma HoldsAfter(fs: seq<Node>, fs1: seq<Node>, fs': seq<Node>, dir: seq<string>, base: string, bytes: seq<char>)
    requires Grown(fs, fs1, dir) && Changed(fs1, fs', dir + [base], Holding(bytes))
    ensures Holds(fs, fs', dir + [base], bytes)
  {
    forall q | q != dir + [base] ensures Prefix(q, dir) <==> Prefix(q, dir + [base]) {
      if Prefix(q, dir + [base]) {
        assert |q| == |dir| + 1 ==> q == dir + [base];
        assert |q| <= |dir| ==> (dir + [base])[..|q|] == dir[..|q|];
      }
      if Prefix(q, dir) {
        assert (dir + [base])[..|q|] == dir[..|q|];
      }
    }
  }

  lemma RootThere(fs: seq<Node>)
    requires IsTree(fs)
    ensures Walk(fs, 0, []) == 0 && At(fs, []) == Directory
  {
  }

  // ----- The whole package -----

  function Install(fs: seq<Node>, item: Item): (r: seq<Node>)
    requires Shape(fs)
    ensures Shape(r)
  {
    Extracted(fs, Names(DirOf(item.path)), BaseOf(item.path), item.bytes)
  }

  // The entries in order
  function InstallAll(fs: seq<Node>, items: seq<Item>): (r: seq<Node>)
    requires Shape(fs)
    ensures Shape(r)
  {
    if |items| == 0 then fs else Install(InstallAll(fs, items[..|items| - 1]), items[|items| - 1])
  }

  // No path is another one or a directory on its way.
  ghost predicate Separate(items: seq<Item>) {
    forall i, j :: 0 <= i < |items| && 0 <= j < |items| && i != j ==>
      !Prefix(Names(items[i].path), Names(items[j].path))
  }

  // The path of an entry: names without dots, no file on its way, no directory in its place
  ghost predicate WellPlaced(fs: seq<Node>, path: string)
    requires Shape(fs)
  {
    && BaseOf(path) != "" && PlainPath(Names(path)) && ShortNames(Names(path))
    && NoFile(fs, Names(DirOf(path)), 0) && At(fs, Names(path)) != Directory
  }

  ghost predicate AllPlaced(fs: seq<Node>, items: seq<Item>)
    requires Shape(fs)
  {
    forall i :: 0 <= i < |items| ==> WellPlaced(fs, items[i].path)
  }

  // Nodes and child slots are there when each entry comes.
  ghost predicate RoomForAll(fs: seq<Node>, items: seq<Item>)
    requires Shape(fs)
  {
    |items| > 0 ==>
      var init := items[..|items| - 1];
      RoomForAll(fs, init) && Enough(InstallAll(fs, init), 0, Names(items[|items| - 1].path))
  }

  ghost predicate Listed(items: seq<Item>, q: seq<string>) {
    exists i :: 0 <= i < |items| && Names(items[i].path) == q
  }

  ghost predicate OnTheWay(items: seq<Item>, q: seq<string>) {
    exists i :: 0 <= i < |items| && Prefix(q, Names(items[i].path))
  }

  // Each listed path names its bytes, the missing directories on the way to them are there, and every
  // other path names what it named before.
  ghost predicate Installed(fs: seq<Node>, fs': seq<Node>, items: seq<Item>)
    requires Shape(fs) && Shape(fs')
  {
    && (forall i :: 0 <= i < |items| ==> At(fs', Names(items[i].path)) == Holding(Upto(items[i].bytes, DATA_MAX)))
    && (forall q :: PlainPath(q) && !Listed(items, q) ==>
          At(fs', q) == if OnTheWay(items, q) && At(fs, q) == Nothing then Directory else At(fs, q))
  }

  lemma SeparateInit(items: seq<Item>)
    requires Separate(items) && |items| > 0
    ensures Separate(items[..|items| - 1])
    ensures !Listed(items[..|items| - 1], Names(items[|items| - 1].path))
    ensures !OnTheWay(items[..|items| - 1], Names(items[|items| - 1].path))
  {
    var n := |items| - 1;
    assert forall i :: 0 <= i < n ==> items[..n][i] == items[i] && !Prefix(Names(items[i].path), Names(items[n].path));
    assert forall i :: 0 <= i < n ==> !Prefix(Names(items[n].path), Names(items[i].path));
  }

  lemma NotListed(items: seq<Item>, q: seq<string>)
    requires Separate(items) && |items| > 0 && Prefix(q, Names(items[|items| - 1].path))
    ensures !Listed(items[..|items| - 1], q)
  {
    var n := |items| - 1;
    assert forall i :: 0 <= i < n ==> items[..n][i] == items[i] && !Prefix(Names(items[i].path), Names(items[n].path));
  }

  // The last entry can still be installed after the earlier ones.
  lemma LastInstallable(fs: seq<Node>, fs1: seq<Node>, items: seq<Item>)
    requires |items| > 0 && IsTree(fs) && IsTree(fs1) && Separate(items) && AllPlaced(fs, items)
    requires Installed(fs, fs1, items[..|items| - 1])
    requires Enough(fs1, 0, Names(items[|items| - 1].path))
    ensures Installable(fs1, Names(items[|items| - 1].path))
  {
    var item := items[|items| - 1];
    var path, dir := Names(item.path), Names(DirOf(item.path));
    assert WellPlaced(fs, item.path);
    SplitDirBase(item.path);
    assert path[..|path| - 1] == dir;
    LastNoFile(fs, fs1, items, dir);
    SeparateInit(items);
    Untouched(fs, fs1, items[..|items| - 1], path);
  }

  lemma LastNoFile(fs: seq<Node>, fs1: seq<Node>, items: seq<Item>, dir: seq<string>)
    requires |items| > 0 && IsTree(fs) && IsTree(fs1) && Separate(items) && AllPlaced(fs, items)
    requires Installed(fs, fs1, items[..|items| - 1])
    requires BaseOf(items[|items| - 1].path) != "" && dir == Names(DirOf(items[|items| - 1].path))
    ensures NoFile(fs1, dir, 0)
  {
    var path := Names(items[|items| - 1].path);
    SplitDirBase(items[|items| - 1].path);
    forall k | 0 <= k <= |dir| ensures !At(fs1, dir[..k]).Holding? {
      assert dir[..k] == path[..k];
      StillNoFile(fs, fs1, items, dir[..k]);
    }
  }

  lemma Untouched(fs: seq<Node>, fs': seq<Node>, items: seq<Item>, q: seq<string>)
    requires Shape(fs) && Shape(fs') && Installed(fs, fs', items)
    requires PlainPath(q) && !Listed(items, q) && !OnTheWay(items, q)
    ensures At(fs', q) == At(fs, q)
  {
  }

  // On the way of the last entry there is still no file.
  lemma StillNoFile(fs: seq<Node>, fs1: seq<Node>, items: seq<Item>, q: seq<string>)
    requires |items| > 0 && Shape(fs) && Shape(fs1) && Separate(items)
    requires Installed(fs, fs1, items[..|items| - 1])
    requires PlainPath(Names(items[|items| - 1].path)) && Prefix(q, Names(items[|items| - 1].path))
    requires !At(fs, q).Holding?
    ensures !At(fs1, q).Holding?
  {
    NotListed(items, q);
    assert PlainPath(q) by {
      assert forall i :: 0 <= i < |q| ==> q[i] == Names(items[|items| - 1].path)[i];
    }
  }

  lemma InstalledMore(fs: seq<Node>, fs1: seq<Node>, fs': seq<Node>, items: seq<Item>)
    requires |items| > 0 && Shape(fs) && Shape(fs1) && Separate(items) && AllPlaced(fs, items)
    requires Installed(fs, fs1, items[..|items| - 1])
    requires Holds(fs1, fs', Names(items[|items| - 1].path), Upto(items[|items| - 1].bytes, DATA_MAX))
    ensures Installed(fs, fs', items)
  {
    forall i | 0 <= i < |items|
      ensures At(fs', Names(items[i].path)) == Holding(Upto(items[i].bytes, DATA_MAX))
    {
      assert WellPlaced(fs, items[i].path);
      SeparateInit(items);
      if i < |items| - 1 {
        assert items[..|items| - 1][i] == items[i];
        ListedKept(fs, fs1, fs', items[..|items| - 1], items[|items| - 1], i);
      }
    }
    forall q | PlainPath(q) && !Listed(items, q)
      ensures At(fs', q) == if OnTheWay(items, q) && At(fs, q) == Nothing then Directory else At(fs, q)
    {
      OtherMore(fs, fs1, fs', items, q);
    }
  }

  lemma ListedKept(fs: seq<Node>, fs1: seq<Node>, fs': seq<Node>, init: seq<Item>, last: Item, i: nat)
    requires i < |init| && Shape(fs) && Shape(fs1) && Installed(fs, fs1, init)
    requires Holds(fs1, fs', Names(last.path), Upto(last.bytes, DATA_MAX))
    requires PlainPath(Names(init[i].path)) && !Listed(init, Names(last.path))
    ensures At(fs', Names(init[i].path)) == Holding(Upto(init[i].bytes, DATA_MAX))
  {
    InstalledAt(fs, fs1, init, i);
    KeptEntry(fs1, fs', Names(last.path), Upto(last.bytes, DATA_MAX), Names(init[i].path));
  }

  lemma InstalledAt(fs: seq<Node>, fs': seq<Node>, items: seq<Item>, i: nat)
    requires Shape(fs) && Shape(fs') && Installed(fs, fs', items) && i < |items|
    ensures At(fs', Names(items[i].path)) == Holding(Upto(items[i].bytes, DATA_MAX)) &&
        Listed(items, Names(items[i].path))
  {
  }

  lemma KeptEntry(fs: seq<Node>, fs': seq<Node>, path: seq<string>, bytes: seq<char>, q: seq<string>)
    requires Holds(fs, fs', path, bytes) && PlainPath(q) && q != path && At(fs, q) != Nothing
    ensures At(fs', q) == At(fs, q)
  {
  }

  lemma OtherMore(fs: seq<Node>, fs1: seq<Node>, fs': seq<Node>, items: seq<Item>, q: seq<string>)
    requires |items| > 0 && Shape(fs) && Shape(fs1) && PlainPath(q) && !Listed(items, q)
    requires Installed(fs, fs1, items[..|items| - 1])
    requires Holds(fs1, fs', Names(items[|items| - 1].path), Upto(items[|items| - 1].bytes, DATA_MAX))
    ensures At(fs', q) == if OnTheWay(items, q) && At(fs, q) == Nothing then Directory else At(fs, q)
  {
    OneMore(items, q);
  }

  lemma OneMore(items: seq<Item>, q: seq<string>)
    requires |items| > 0
    ensures Listed(items, q) <==> Listed(items[..|items| - 1], q) || q == Names(items[|items| - 1].path)
    ensures OnTheWay(items, q) <==> OnTheWay(items[..|items| - 1], q) || Prefix(q, Names(items[|items| - 1].path))
  {
    var n := |items| - 1;
    assert forall i :: 0 <= i < n ==> items[..n][i] == items[i];
  }

  /** Installing a package of well-placed, separate paths that there is room for makes every listed
      path name its bytes, makes exactly the missing directories, and changes nothing else. */
  lemma {:induction false} PackageInstalled(fs: seq<Node>, items: seq<Item>)
    requires IsTree(fs) && Separate(items) && AllPlaced(fs, items) && RoomForAll(fs, items)
    ensures IsTree(InstallAll(fs, items)) && Installed(fs, InstallAll(fs, items), items)
    decreases |items|
  {
    if |items| > 0 {
      var init := items[..|items| - 1];
      SeparateInit(items);
      PackageInstalled(fs, init);
      PackageStep(fs, InstallAll(fs, init), items);
    }
  }

  lemma PackageStep(fs: seq<Node>, fs1: seq<Node>, items: seq<Item>)
    requires |items| > 0 && IsTree(fs) && IsTree(fs1) && Separate(items) && AllPlaced(fs, items)
    requires Installed(fs, fs1, items[..|items| - 1])
    requires Enough(fs1, 0, Names(items[|items| - 1].path))
    ensures IsTree(Install(fs1, items[|items| - 1])) && Installed(fs, Install(fs1, items[|items| - 1]), items)
  {
    var item := items[|items| - 1];
    LastInstallable(fs, fs1, items);
    assert WellPlaced(fs, item.path);
    SplitDirBase(item.path);
    ExtractedHolds(fs1, Names(DirOf(item.path)), BaseOf(item.path), item.bytes);
    InstalledMore(fs, fs1, Install(fs1, item), items);
  }
}
