/**
 How much room a package needs: a check on the tree before the installation that is enough for every
 entry of it.
 */
module SpkRoom {
  import opened RamTree
  import opened RamView
  import opened SpkModel
  import opened RamPath
  import opened OpenModel
  import opened FileStream

  predicate Uses(fs: seq<Node>, n: nat) { n < |fs| && fs[n].kind != Free }

  function Kids(fs: seq<Node>, n: nat): nat { if Uses(fs, n) then |fs[n].children| else 0 }

  // At most one more child for every node, none for `d`, and at most `cost` more nodes
  ghost predicate Took(fs: seq<Node>, fs': seq<Node>, d: nat, cost: nat) {
    && Unused(fs') >= Unused(fs) - cost
    && forall n: nat :: n < NODES ==> Kids(fs', n) <= Kids(fs, n) + if n == d then 0 else 1
  }

  // The same below the directory `top`, where only `top` and new nodes get a child
  ghost predicate TookBelow(fs: seq<Node>, fs': seq<Node>, top: nat, d: nat, cost: nat) {
    && Took(fs, fs', d, cost) && (d == top || !Uses(fs, d))
    && forall n: nat :: n < NODES && n != top && Uses(fs, n) ==> Kids(fs', n) == Kids(fs, n)
  }

  // Node k has become a child of p.
  ghost predicate GotChild(fs: seq<Node>, fs1: seq<Node>, p: nat, k: nat) {
    && Unused(fs1) == Unused(fs) - 1 && p != k && Uses(fs, p) && !Uses(fs, k) && Kids(fs1, k) == 0
    && (forall n: nat :: n < NODES && n != k ==> Uses(fs1, n) == Uses(fs, n))
    && Kids(fs1, p) == Kids(fs, p) + 1
    && forall n: nat :: n < NODES && n != p ==> Kids(fs1, n) == Kids(fs, n)
  }

  lemma MkdirKids(fs: seq<Node>, p: nat, x: string)
    requires Shape(fs) && p < NODES && Uses(fs, p) && DoMkdir(fs, p, x).ret != -1
    ensures GotChild(fs, DoMkdir(fs, p, x).nodes, p, DoMkdir(fs, p, x).ret)
  {
    MkdirTakes(fs, p, x);
  }

  lemma ChildThenBelow(fs: seq<Node>, fs1: seq<Node>, fs': seq<Node>, p: nat, k: nat, d: nat, cost: nat)
    requires GotChild(fs, fs1, p, k) && TookBelow(fs1, fs', k, d, cost) && p < NODES && k < NODES && |fs| == NODES
    ensures TookBelow(fs, fs', p, d, cost + 1)
  {
  }

  lemma UsesDone(fs: seq<Node>, done: seq<string>, rest: seq<string>, base: string)
    requires Ready(fs, done, rest, base)
    ensures Uses(fs, Walk(fs, 0, done))
  {
  }

  lemma {:induction false} MakeBelow(fs: seq<Node>, done: seq<string>, rest: seq<string>, base: string)
    requires Ready(fs, done, rest, base) && fs[Walk(fs, 0, done)].children == []
    ensures var p := Walk(fs, 0, done);
      var d := MakeDirs(fs, p, rest);
      TookBelow(fs, d.nodes, p, d.dir, |rest|)
    decreases |rest|, 1
  {
    if |rest| > 0 {
      var p := Walk(fs, 0, done);
      assert Find(fs, p, rest[0]) == -1;
      MakeOneBelow(fs, done, rest, base);
    }
  }

  // A missing name: mkdir, and everything after it goes below the new directory.
  lemma {:induction false} MakeOneBelow(fs: seq<Node>, done: seq<string>, rest: seq<string>, base: string)
    requires Ready(fs, done, rest, base) && |rest| > 0 && Find(fs, Walk(fs, 0, done), rest[0]) == -1
    ensures var p := Walk(fs, 0, done);
      var d := MakeDirs(fs, p, rest);
      TookBelow(fs, d.nodes, p, d.dir, |rest|)
    decreases |rest|, 0
  {
    var p, x, more := Walk(fs, 0, done), rest[0], rest[1..];
    ReadyMade(fs, done, rest, base);
    UsesDone(fs, done, rest, base);
    MkdirKids(fs, p, x);
    var c := DoMkdir(fs, p, x);
    assert c.nodes[c.ret].children == [];
    MakeBelow(c.nodes, done + [x], more, base);
    var d := MakeDirs(c.nodes, c.ret, more);
    ChildThenBelow(fs, c.nodes, d.nodes, p, c.ret, d.dir, |more|);
  }

  lemma {:induction false} MakeTook(fs: seq<Node>, done: seq<string>, rest: seq<string>, base: string)
    requires Ready(fs, done, rest, base)
    ensures var d := MakeDirs(fs, Walk(fs, 0, done), rest);
      Took(fs, d.nodes, d.dir, |rest|)
    decreases |rest|
  {
    if |rest| > 0 {
      if Find(fs, Walk(fs, 0, done), rest[0]) != -1 {
        ReadyFound(fs, done, rest, base);
        MakeTook(fs, done + [rest[0]], rest[1..], base);
      } else {
        MakeOneBelow(fs, done, rest, base);
      }
    }
  }

  // After one whole entry: one more child at most for every node, one node at most for every name
  ghost predicate TookOne(fs: seq<Node>, fs': seq<Node>, cost: nat) {
    && Unused(fs') >= Unused(fs) - cost
    && forall n: nat :: n < NODES ==> Kids(fs', n) <= Kids(fs, n) + 1
  }

  lemma PutTook(fs: seq<Node>, fs1: seq<Node>, d: nat, cost: nat, base: string, bytes: seq<char>)
    requires Took(fs, fs1, d, cost) && IsTree(fs1) && d < NODES && Uses(fs1, d) && |bytes| <= DATA_MAX
    ensures TookOne(fs, PutFile(fs1, d, base, bytes), cost + 1)
  {
    var c := if Find(fs1, d, base) != -1 then Change(fs1, Find(fs1, d, base)) else DoCreate(fs1, d, base);
    if Find(fs1, d, base) == -1 && c.ret != -1 {
      FreeChildless(fs1, FreeNodeOf(fs1));
      CreateKids(fs1, d, base);
    }
    assert TookOne(fs, c.nodes, cost + 1);
    if c.ret != -1 { FilledKids(c.nodes, c.ret, bytes); }
  }

  lemma FilledKids(fs: seq<Node>, f: nat, bytes: seq<char>)
    requires Shape(fs) && f < NODES && |bytes| <= DATA_MAX
    ensures Unused(Filled(fs, f, bytes)) == Unused(fs)
    ensures forall n: nat :: n < NODES ==> Kids(Filled(fs, f, bytes), n) == Kids(fs, n)
  {
    CountUpdate(fs, f, Filled(fs, f, bytes)[f]);
  }

  lemma FreeChildless(fs: seq<Node>, k: nat)
    requires IsTree(fs) && k < NODES && fs[k].kind == Free
    ensures fs[k].children == []
  {
  }

  lemma CreateKids(fs: seq<Node>, p: nat, x: string)
    requires Shape(fs) && p < NODES && Uses(fs, p) && Find(fs, p, x) == -1 && DoCreate(fs, p, x).ret != -1
    requires fs[FreeNodeOf(fs)].children == []
    ensures GotChild(fs, DoCreate(fs, p, x).nodes, p, DoCreate(fs, p, x).ret)
  {
    CreateTakes(fs, p, x);
  }

  lemma CreateTakes(fs: seq<Node>, p: nat, x: string)
    requires Shape(fs) && p < NODES && Uses(fs, p) && Find(fs, p, x) == -1 && DoCreate(fs, p, x).ret != -1
    ensures Unused(DoCreate(fs, p, x).nodes) == Unused(fs) - 1
  {
    var k := FreeNodeOf(fs);
    var node := NewNode(fs[k], File, x, p);
    var fs1 := fs[k := node];
    CountUpdate(fs, k, node);
    CountUpdate(fs1, p, fs1[p].(children := fs1[p].children + [k]));
  }

  lemma ExtractedTook(fs: seq<Node>, dir: seq<string>, base: string, bytes: seq<char>)
    requires Installable(fs, dir + [base])
    ensures TookOne(fs, Extracted(fs, dir, base, bytes), |dir| + 1)
  {
    var path := dir + [base];
    assert path[..|path| - 1] == dir;
    assert PlainPath(dir) by {
      assert forall i :: 0 <= i < |dir| ==> dir[i] == path[i];
    }
    RootThere(fs);
    if Walk(fs, 0, dir) != -1 { MakeNone(fs, 0, dir); }
    assert [] + dir == dir;
    MakeDirsGrow(fs, [], dir, base);
    MakeTook(fs, [], dir, base);
    var d := MakeDirs(fs, 0, dir);
    PutTook(fs, d.nodes, d.dir, |dir|, base, Upto(bytes, DATA_MAX));
  }

  // ----- A check before the installation -----

  function NameCount(items: seq<Item>): nat {
    if |items| == 0 then 0 else NameCount(items[..|items| - 1]) + |Names(items[|items| - 1].path)|
  }

  // A node for every name, and a child slot in every node for every entry
  ghost predicate Slack(fs: seq<Node>, items: seq<Item>) {
    && Unused(fs) >= NameCount(items)
    && forall n: nat :: n < NODES ==> Kids(fs, n) + |items| <= MAX_CHILDREN
  }

  lemma {:induction false} SlackEnough(fs: seq<Node>, p: nat, toks: seq<string>)
    requires IsTree(fs) && p < NODES && Uses(fs, p) && Unused(fs) >= |toks|
    requires forall n: nat :: n < NODES ==> Kids(fs, n) < MAX_CHILDREN
    ensures Enough(fs, p, toks)
    decreases |toks|
  {
    if |toks| > 0 && Find(fs, p, toks[0]) != -1 {
      var depth :| Tree(fs, depth);
      FoundLive(fs, p, toks[0]);
      SlackEnough(fs, Find(fs, p, toks[0]), toks[1..]);
    } else if |toks| > 0 {
      assert Kids(fs, p) < MAX_CHILDREN;
    }
  }

  // What the entries so far have used
  ghost predicate TookMany(fs: seq<Node>, fs': seq<Node>, items: seq<Item>) {
    && Unused(fs') >= Unused(fs) - NameCount(items)
    && forall n: nat :: n < NODES ==> Kids(fs', n) <= Kids(fs, n) + |items|
  }

  lemma TookLast(fs: seq<Node>, fs1: seq<Node>, fs': seq<Node>, items: seq<Item>)
    requires |items| > 0 && TookMany(fs, fs1, items[..|items| - 1])
    requires TookOne(fs1, fs', |Names(items[|items| - 1].path)|)
    ensures TookMany(fs, fs', items)
  {
  }

  lemma SlackLast(fs: seq<Node>, fs1: seq<Node>, items: seq<Item>)
    requires |items| > 0 && Slack(fs, items) && IsTree(fs1) && TookMany(fs, fs1, items[..|items| - 1])
    ensures Enough(fs1, 0, Names(items[|items| - 1].path))
  {
    forall n: nat | n < NODES ensures Kids(fs1, n) < MAX_CHILDREN {
      assert Kids(fs1, n) <= Kids(fs, n) + |items| - 1;
    }
    SlackEnough(fs1, 0, Names(items[|items| - 1].path));
  }

  /** A node for every name and a child slot per entry are enough room for the package. */
  lemma {:induction false} SlackRoom(fs: seq<Node>, items: seq<Item>)
    requires IsTree(fs) && Separate(items) && AllPlaced(fs, items) && Slack(fs, items)
    ensures RoomForAll(fs, items) && TookMany(fs, InstallAll(fs, items), items)
    decreases |items|
  {
    if |items| > 0 {
      var init, item := items[..|items| - 1], items[|items| - 1];
      SeparateInit(items);
      assert NameCount(items) == NameCount(init) + |Names(item.path)|;
      SlackRoom(fs, init);
      PackageInstalled(fs, init);
      var fs1 := InstallAll(fs, init);
      SlackLast(fs, fs1, items);
      LastInstallable(fs, fs1, items);
      assert WellPlaced(fs, item.path);
      SplitDirBase(item.path);
      ExtractedTook(fs1, Names(DirOf(item.path)), BaseOf(item.path), item.bytes);
      TookLast(fs, fs1, InstallAll(fs, items), items);
    }
  }
}
