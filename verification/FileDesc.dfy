/**
 The file-descriptor system calls over RamFS, written through to DiskFS (kernel/syscall.c).
 */
module KernelSyscall {
  import opened RamTree
  import opened RamPath
  import opened RamView
  import opened KernelRamFS
  import opened ByteStrings
  import opened FileStream
  import opened OpenModel
  import DL = DiskLayout
  import DM = DiskModel
  import KernelDiskFS
  import Tokens

  const MAX_FDS: nat := 16
  const O_CREAT: bv32 := 64
  const O_TRUNC: bv32 := 512
  const O_APPEND: bv32 := 1024
  const ENOENT: int := -2
  const EBADF: int := -9
  const EMFILE: int := -24

  // node is -1 for NULL
  datatype Fd = Fd(used: bool, flags: bv32, offset: nat, node: int, isStdout: bool, isStdin: bool)

  const NoFd: Fd := Fd(false, 0, 0, -1, false, false)

  predicate Has(flags: bv32, bit: bv32) { flags & bit != 0 }

  ghost predicate CNames(fs: seq<Node>) { forall n :: 0 <= n < |fs| ==> CName(fs[n].name) }

  // Index of the first unused descriptor, the length if there is none
  function FirstUnused(fds: seq<Fd>): (k: nat)
    ensures k <= |fds| && (k < |fds| ==> !fds[k].used)
    ensures forall i :: 0 <= i < k ==> fds[i].used
  {
    if |fds| == 0 || !fds[0].used then 0 else FirstUnused(fds[1..]) + 1
  }

  // fd_alloc: the first three are never given out; 16 if there is none
  function FreeFd(fds: seq<Fd>): (k: nat)
    requires |fds| == MAX_FDS
    ensures 3 <= k <= MAX_FDS && (k < MAX_FDS ==> !fds[k].used)
    ensures forall i :: 3 <= i < k ==> fds[i].used
  {
    assert forall i :: 3 <= i < MAX_FDS ==> fds[i] == fds[3..][i - 3];
    FirstUnused(fds[3..]) + 3
  }

  predicate Opens(f: Fd) { f.used && f.node != -1 }

  // Every offset lies inside its file.
  ghost predicate Steady(fds: seq<Fd>, fs: seq<Node>) {
    forall i :: 0 <= i < |fds| && Opens(fds[i]) ==> 0 <= fds[i].node < |fs| && fds[i].offset <= fs[fds[i].node].size
  }

  // What sys_open does to the descriptors and to RamFS
  ghost predicate Opened(fds: seq<Fd>, fs: seq<Node>, path: string, flags: bv32, ret: int,
                         fds': seq<Fd>, fs': seq<Node>)
    requires |fds| == MAX_FDS && Shape(fs)
  {
    var k, o := FreeFd(fds), OpenNode(fs, path, Has(flags, O_CREAT));
    if k == MAX_FDS then ret == EMFILE && fds' == fds && fs' == fs
    else if o.ret == -1 then ret == ENOENT && fds' == fds && fs' == fs
    else
      var n := o.nodes[o.ret];
      && ret == k
      && fds' == fds[k := fds[k].(used := true, flags := flags, node := o.ret,
                                  offset := if Has(flags, O_APPEND) then n.size else 0)]
      && fs' == if Has(flags, O_TRUNC) then o.nodes[o.ret := n.(size := 0)] else o.nodes
  }

  // Every other descriptor of node n stands at offset 0.
  ghost predicate OthersAtStart(fds: seq<Fd>, k: nat, n: int) {
    forall i :: 0 <= i < |fds| && i != k && Opens(fds[i]) && fds[i].node == n ==> fds[i].offset == 0
  }

  // The open empties or makes the node.
  ghost predicate Empties(fs: seq<Node>, path: string, flags: bv32)
    requires Shape(fs)
  {
    Has(flags, O_TRUNC) || OpenNode(fs, path, Has(flags, O_CREAT)).nodes != fs
  }

  /** Opening keeps every offset inside its file, exactly unless it empties the node (with O_TRUNC, or
      by making a new one of it) under another descriptor that is past its start, or both empties a
      nonempty node and takes its old size as the offset. */
  lemma OpenSteady(fds: seq<Fd>, fs: seq<Node>, path: string, flags: bv32, ret: nat, fds': seq<Fd>, fs': seq<Node>)
    requires |fds| == MAX_FDS && Shape(fs) && Steady(fds, fs)
    requires Opened(fds, fs, path, flags, ret, fds', fs')
    ensures Steady(fds', fs') <==>
            var o := OpenNode(fs, path, Has(flags, O_CREAT));
            && (Empties(fs, path, flags) ==> OthersAtStart(fds, ret, o.ret))
            && !(Has(flags, O_TRUNC) && Has(flags, O_APPEND) && o.nodes[o.ret].size > 0)
  {
    var o := OpenNode(fs, path, Has(flags, O_CREAT));
    OpenSizes(fs, path, Has(flags, O_CREAT));
    assert fds'[ret].node == o.ret && Opens(fds'[ret]);
    assert forall i :: 0 <= i < |fds| && i != ret ==> fds'[i] == fds[i];
  }

  // What an open without O_TRUNC does to sizes
  lemma OpenSizes(fs: seq<Node>, path: string, creat: bool)
    requires Shape(fs) && OpenNode(fs, path, creat).ret != -1
    ensures var o := OpenNode(fs, path, creat);
      && |o.nodes| == NODES && 0 <= o.ret < NODES
      && (forall n :: 0 <= n < NODES && n != o.ret ==> o.nodes[n].size == fs[n].size)
      && (o.nodes != fs ==> o.nodes[o.ret].size == 0)
  {
  }

  // Writing through one descriptor
  lemma WriteSteady(fds: seq<Fd>, fs: seq<Node>, fd: nat, buf: string)
    requires Shape(fs) && Steady(fds, fs) && fd < |fds| && Opens(fds[fd]) && fds[fd].offset <= DATA_MAX
    ensures var r := Written(Stream(fs[fds[fd].node], fds[fd].offset), buf);
      Steady(fds[fd := fds[fd].(offset := r.offset)], fs[fds[fd].node := r.node])
  {
  }

  // A node with other contents
  lemma NodeReplaced(fs: seq<Node>, f: nat, node: Node)
    requires Shape(fs) && f < NODES && node == fs[f].(data := node.data, size := node.size)
    requires |node.data| == DATA_MAX && node.size <= DATA_MAX
    ensures Shape(fs[f := node]) && SameTree(fs, fs[f := node])
    ensures CNames(fs) ==> CNames(fs[f := node])
  {
  }

  class FdTable {
    const fs: RamFS
    const disk: KernelDiskFS.DiskFS
    const fds: array<Fd>
    var screen: string

    ghost predicate Valid()
      reads this, fds, fs, fs.nodes, disk, disk.inodes, disk.disk.sectors
    {
      && fs.Valid() && disk.Valid() && CNames(fs.nodes[..]) && fds.Length == MAX_FDS
      && forall i :: 0 <= i < MAX_FDS ==> fds[i].offset <= DATA_MAX && -1 <= fds[i].node < NODES
    }

    // A descriptor of a node of RamFS
    predicate OnNode(fd: nat)
      requires fds.Length == MAX_FDS
      reads fds
    {
      fd < MAX_FDS && fds[fd].used && fds[fd].node != -1
    }

    function StreamOf(fd: nat): (s: Stream)
      requires Valid() && OnNode(fd)
      reads this, fds, fs, fs.nodes, disk, disk.inodes, disk.disk.sectors
      ensures InRange(s)
    {
      Stream(fs.nodes[fds[fd].node], fds[fd].offset)
    }

    // No offset lies behind the end of its file.
    ghost predicate InStep()
      requires Valid()
      reads this, fds, fs, fs.nodes, disk, disk.inodes, disk.disk.sectors
    {
      Steady(fds[..], fs.nodes[..])
    }

    // fd_init
    constructor (fs: RamFS, disk: KernelDiskFS.DiskFS)
      requires fs.Valid() && disk.Valid() && CNames(fs.nodes[..])
      ensures Valid() && InStep() && this.fs == fs && this.disk == disk && fresh(fds) && screen == ""
      ensures forall i: nat :: !OnNode(i)
      ensures FreeFd(fds[..]) == 3
    {
      this.fs := fs;
      this.disk := disk;
      fds := new Fd[MAX_FDS](_ => NoFd);
      screen := "";
      new;
      fds[0] := fds[0].(used := true, isStdin := true);
      fds[1] := fds[1].(used := true, isStdout := true);
      fds[2] := fds[2].(used := true, isStdout := true);
    }

    method FdAlloc() returns (fd: int)
      requires fds.Length == MAX_FDS
      ensures fd == if FreeFd(fds[..]) < MAX_FDS then FreeFd(fds[..]) else -1
    {
      ghost var t := fds[..];
      var i := 3;
      while i < MAX_FDS
        invariant 3 <= i <= MAX_FDS && forall k :: 3 <= k < i ==> t[k].used
      {
        assert t[i] == fds[i];
        if !fds[i].used { return i; }
        i := i + 1;
      }
      return -1;
    }

    // diskfs_write(f->name, f->data, f->size)
    method Sync(f: nat)
      requires Valid() && f < NODES && disk.ready
      modifies disk, disk.inodes, disk.disk, disk.disk.sectors
      ensures Valid() && disk.ready
      ensures Mirrored(old(disk.View()), old(disk.inodes[..]), fs.nodes[f], disk.View())
    {
      var name := ToBytes(fs.nodes[f].name);
      assert 0 !in name by {
        assert CName(fs.nodes[..][f].name);
      }
      var bytes := ToBytes(fs.nodes[f].data[..fs.nodes[f].size]);
      var r := disk.Write(name, bytes);
    }

    // The copy into the node and the move of the offset
    method WriteFile(fd: nat, buf: string) returns (n: nat)
      requires fds.Length == MAX_FDS && fs.nodes.Length == NODES && OnNode(fd) && 0 <= fds[fd].node < NODES && |buf| > 0
      requires InRange(Stream(fs.nodes[fds[fd].node], fds[fd].offset))
      modifies fds, fs.nodes
      ensures var f, s := old(fds[fd].node), old(Stream(fs.nodes[fds[fd].node], fds[fd].offset));
        && fds[..] == old(fds[..])[fd := old(fds[fd]).(offset := Written(s, buf).offset)]
        && fs.nodes[..] == old(fs.nodes[..])[f := Written(s, buf).node]
        && n == Written(s, buf).offset - s.offset
    {
      var f := fds[fd].node;
      var space := DATA_MAX - fds[fd].offset;
      n := if |buf| < space then |buf| else space;
      assert buf[..n] == Upto(buf, space);
      fs.nodes[f] := fs.nodes[f].(data := Put(fs.nodes[f].data, fds[fd].offset, buf[..n]));
      fds[fd] := fds[fd].(offset := fds[fd].offset + n);
      if fds[fd].offset > fs.nodes[f].size {
        fs.nodes[f] := fs.nodes[f].(size := fds[fd].offset);
      }
    }

    // Characters to the screen (and to the serial line), one by one
    method PutChars(buf: string)
      modifies `screen
      ensures screen == old(screen) + buf
    {
      var i := 0;
      while i < |buf|
        invariant 0 <= i <= |buf| && screen == old(screen) + buf[..i]
      {
        screen := screen + [buf[i]];
        i := i + 1;
      }
      assert buf[..i] == buf;
    }

    // The file branch of sys_write, in RamFS
    method WriteRam(fd: nat, buf: string) returns (n: nat)
      requires Valid() && OnNode(fd) && |buf| > 0
      modifies fds, fs.nodes
      ensures Valid() && Appended(fd, old(StreamOf(fd)), buf, old(fds[..]), old(fs.nodes[..]), n)
      ensures old(InStep()) ==> InStep()
      ensures old(fs.IsTree()) ==> fs.IsTree()
    {
      ghost var fs0, f, r := fs.nodes[..], fds[fd].node, Written(StreamOf(fd), buf);
      n := WriteFile(fd, buf);
      NodeReplaced(fs0, f, r.node);
      if old(fs.IsTree()) { SameIsTree(fs0, fs.nodes[..], fs.depth); }
      if old(InStep()) { WriteSteady(old(fds[..]), fs0, fd, buf); }
    }

    // The file branch of sys_write
    method WriteNode(fd: nat, buf: string) returns (n: nat)
      requires Valid() && OnNode(fd) && |buf| > 0
      modifies fds, fs.nodes, disk, disk.inodes, disk.disk, disk.disk.sectors
      ensures Valid() && disk.ready == old(disk.ready)
      ensures Appended(fd, old(StreamOf(fd)), buf, old(fds[..]), old(fs.nodes[..]), n)
      ensures disk.ready ==> Mirrored(old(disk.View()), old(disk.inodes[..]), StreamOf(fd).node, disk.View())
      ensures old(InStep()) ==> InStep()
      ensures old(fs.IsTree()) ==> fs.IsTree()
    {
      n := WriteRam(fd, buf);
      if disk.ready { Sync(fds[fd].node); }
    }

    // The descriptor's stream has taken up buf; every other descriptor and node is as it was.
    ghost predicate Appended(fd: nat, s: Stream, buf: string, fds0: seq<Fd>, fs0: seq<Node>, n: int)
      requires Valid() && InRange(s)
      reads this, fds, fs, fs.nodes, disk, disk.inodes, disk.disk.sectors
    {
      && OnNode(fd) && |fds0| == MAX_FDS && |fs0| == NODES
      && StreamOf(fd) == Written(s, buf) && n == StreamOf(fd).offset - s.offset
      && fds[..] == fds0[fd := fds0[fd].(offset := fds[fd].offset)]
      && fs.nodes[..] == fs0[fds[fd].node := StreamOf(fd).node]
    }

    // sys_write of the |buf| bytes at buf
    method Write(fd: nat, buf: string) returns (ret: int)
      requires Valid()
      modifies this, fds, fs.nodes, disk, disk.inodes, disk.disk, disk.disk.sectors
      ensures Valid() && disk.ready == old(disk.ready)
      ensures var file := old(OnNode(fd)) && fd != 1 && fd != 2;
        && (file ==>
              && Appended(fd, old(StreamOf(fd)), buf, old(fds[..]), old(fs.nodes[..]), ret)
              && screen == old(screen))
        && (file && |buf| > 0 && disk.ready ==>
              Mirrored(old(disk.View()), old(disk.inodes[..]), StreamOf(fd).node, disk.View()))
        && (!file || |buf| == 0 ==>
              && fds[..] == old(fds[..]) && fs.nodes[..] == old(fs.nodes[..])
              && disk.State() == old(disk.State()) && disk.disk.Image() == old(disk.disk.Image())
              && screen == (if fd == 1 || fd == 2 then old(screen) + buf else old(screen))
              && ret == (if |buf| == 0 then 0 else if fd == 1 || fd == 2 then |buf| else -9))
      ensures old(InStep()) ==> InStep()
      ensures old(fs.IsTree()) ==> fs.IsTree()
    {
      if |buf| == 0 {
        return 0;
      }
      if fd == 1 || fd == 2 {
        PutChars(buf);
        return |buf|;
      }
      if fd < MAX_FDS && fds[fd].used && fds[fd].node != -1 {
        ret := WriteNode(fd, buf);
        return;
      }
      return EBADF;
    }

    // Characters from the keyboard up to the first line feed; keys is what the keyboard will deliver
    method GetLine(count: nat, keys: string) returns (buf: string)
      requires count <= |keys|
      ensures buf <= keys && |buf| <= count
      ensures forall i :: 0 <= i < |buf| - 1 ==> buf[i] != '\n'
      ensures |buf| == count || (|buf| > 0 && buf[|buf| - 1] == '\n')
    {
      buf := [];
      var i := 0;
      while i < count
        invariant 0 <= i <= count && buf == keys[..i] && '\n' !in buf
      {
        var c := keys[i];
        buf := buf + [c];
        i := i + 1;
        if c == '\n' { return; }
      }
    }

    // sys_read of at most count bytes
    method Read(fd: nat, count: nat, keys: string) returns (buf: string)
      requires Valid() && count <= |keys|
      requires OnNode(fd) ==> fds[fd].offset <= fs.nodes[fds[fd].node].size
      modifies fds
      ensures Valid()
      ensures fd == 0 ==> buf <= keys && |buf| <= count && fds[..] == old(fds[..])
      ensures fd == 0 ==> forall i :: 0 <= i < |buf| - 1 ==> buf[i] != '\n'
      ensures fd == 0 ==> |buf| == count || (|buf| > 0 && buf[|buf| - 1] == '\n')
      ensures fd != 0 && old(OnNode(fd)) ==>
        && OnNode(fd) && buf == Next(old(StreamOf(fd)), count) && StreamOf(fd) == After(old(StreamOf(fd)), count)
        && fds[..] == old(fds[..])[fd := old(fds[fd]).(offset := fds[fd].offset)]
      ensures fd != 0 && !old(OnNode(fd)) ==> buf == "" && fds[..] == old(fds[..])
      ensures old(InStep()) ==> InStep()
    {
      if count == 0 { return ""; }
      if fd == 0 {
        buf := GetLine(count, keys);
        return;
      }
      if fd < MAX_FDS && fds[fd].used && fds[fd].node != -1 {
        var f := fds[fd].node;
        var avail := fs.nodes[f].size - fds[fd].offset;
        var n := if count < avail then count else avail;
        buf := fs.nodes[f].data[fds[fd].offset..fds[fd].offset + n];
        NextIs(StreamOf(fd), count, n);
        fds[fd] := fds[fd].(offset := fds[fd].offset + n);
        return;
      }
      return "";
    }

    // char dir[256], base[64]
    method DirAndBase(path: string) returns (dir: string, base: string)
      ensures dir == DirString(path) && base == BaseOf(path)
      ensures CName(path) ==> CName(base) && Tokens.NUL !in dir
      ensures Fits(path) ==> Fits(dir)
    {
      var last := FindBase(path);
      dir := if last == 0 then "/" else path[..last];
      base := path[last..];
    }

    // The node for a path that does not resolve, with O_CREAT
    method CreateAt(path: string) returns (node: int)
      requires Valid() && CName(path) && Fits(path) && |BaseOf(path)| < NAME_MAX
      requires Resolved(fs.nodes[..], path) == -1
      modifies fs, fs.nodes
      ensures Valid() && Change(fs.nodes[..], node) == OpenNode(old(fs.nodes[..]), path, true)
      ensures old(fs.IsTree() && fs.nodes[ParentOf(fs.nodes[..], path)].kind == Dir) ==> fs.IsTree()
    {
      ghost var fs0 := fs.nodes[..];
      var dir, base := DirAndBase(path);
      var parent := fs.Resolve(dir);
      if parent == -1 { parent := 0; }
      node := fs.Create(parent, base);
      CreateNames(fs0, parent, base);
    }

    // The node of a path, created if the flags say so
    method Lookup(path: string, creat: bool) returns (node: int)
      requires Valid() && CName(path) && Fits(path)
      requires creat && Resolved(fs.nodes[..], path) == -1 ==> |BaseOf(path)| < NAME_MAX
      modifies fs, fs.nodes
      ensures Valid() && Change(fs.nodes[..], node) == OpenNode(old(fs.nodes[..]), path, creat)
      ensures old(fs.IsTree() && fs.nodes[ParentOf(fs.nodes[..], path)].kind == Dir) ==> fs.IsTree()
    {
      node := fs.Resolve(path);
      if node == -1 && creat {
        node := CreateAt(path);
      }
    }

    // sys_open
    method Open(path: string, flags: bv32) returns (ret: int)
      requires Valid() && CName(path) && Fits(path)
      requires Has(flags, O_CREAT) && Resolved(fs.nodes[..], path) == -1 ==> |BaseOf(path)| < NAME_MAX
      modifies fds, fs, fs.nodes
      ensures Valid()
      ensures Opened(old(fds[..]), old(fs.nodes[..]), path, flags, ret, fds[..], fs.nodes[..])
      ensures old(fs.IsTree() && fs.nodes[ParentOf(fs.nodes[..], path)].kind == Dir) ==> fs.IsTree()
    {
      var fd := FdAlloc();
      if fd < 0 { return EMFILE; }
      var node := Lookup(path, Has(flags, O_CREAT));
      if node == -1 { return ENOENT; }
      Claim(fd, node, flags);
      return fd;
    }

    // node->size = 0
    method Truncate(node: nat)
      requires Valid() && node < NODES
      modifies fs.nodes
      ensures Valid() && fs.nodes[..] == old(fs.nodes[..])[node := old(fs.nodes[node]).(size := 0)]
      ensures old(fs.IsTree()) ==> fs.IsTree()
    {
      ghost var fs0 := fs.nodes[..];
      fs.nodes[node] := fs.nodes[node].(size := 0);
      NodeReplaced(fs0, node, fs.nodes[node]);
      if old(fs.IsTree()) { SameIsTree(fs0, fs.nodes[..], fs.depth); }
    }

    // The last step of sys_open
    method Claim(fd: nat, node: nat, flags: bv32)
      requires Valid() && fd < MAX_FDS && node < NODES
      modifies fds, fs.nodes
      ensures Valid()
      ensures var n := old(fs.nodes[node]);
        && fds[..] == old(fds[..])[fd := old(fds[fd]).(used := true, flags := flags, node := node,
                                                       offset := if Has(flags, O_APPEND) then n.size else 0)]
        && fs.nodes[..] == if Has(flags, O_TRUNC) then old(fs.nodes[..])[node := n.(size := 0)] else old(fs.nodes[..])
      ensures old(fs.IsTree()) ==> fs.IsTree()
    {
      fds[fd] := fds[fd].(used := true);
      fds[fd] := fds[fd].(flags := flags);
      fds[fd] := fds[fd].(offset := if Has(flags, O_APPEND) then fs.nodes[node].size else 0);
      fds[fd] := fds[fd].(node := node);
      if Has(flags, O_TRUNC) { Truncate(node); }
    }

    // sys_close
    method Close(fd: nat) returns (ret: int)
      requires Valid()
      modifies fds
      ensures Valid() && ret == 0
      ensures fds[..] == if 3 <= fd < MAX_FDS && old(fds[fd]).used
                         then old(fds[..])[fd := old(fds[fd]).(used := false, node := -1)] else old(fds[..])
      ensures 3 <= fd < MAX_FDS ==> FreeFd(fds[..]) < MAX_FDS
      ensures old(InStep()) ==> InStep()
    {
      if fd < 3 || fd >= MAX_FDS { return 0; }
      if fds[fd].used {
        fds[fd] := fds[fd].(used := false);
        fds[fd] := fds[fd].(node := -1);
      }
      return 0;
    }

    // The writes so far have only moved the offset of fd and filled its node.
    ghost predicate Wrote(fd: nat, s0: Stream, done: seq<string>, fds0: seq<Fd>, fs0: seq<Node>)
      requires Valid() && InRange(s0)
      reads this, fds, fs, fs.nodes, disk, disk.inodes, disk.disk.sectors
    {
      && OnNode(fd) && |fds0| == MAX_FDS && fds[..] == fds0[fd := fds0[fd].(offset := fds[fd].offset)]
      && StreamOf(fd) == WriteAll(s0, done) && SameTree(fs0, fs.nodes[..])
    }

    method WriteChunk(fd: nat, chunk: string, ghost s0: Stream, ghost done: seq<string>, ghost fds0: seq<Fd>,
        ghost fs0: seq<Node>)
      requires Valid() && InRange(s0) && fd >= 3 && Wrote(fd, s0, done, fds0, fs0)
      modifies this, fds, fs.nodes, disk, disk.inodes, disk.disk, disk.disk.sectors
      ensures Valid() && Wrote(fd, s0, done + [chunk], fds0, fs0)
      ensures StreamOf(fd).node.name == old(StreamOf(fd)).node.name && disk.ready == old(disk.ready)
      ensures |chunk| == 0 ==> StreamOf(fd).node == old(StreamOf(fd)).node && disk.State() == old(disk.State())
      ensures |chunk| == 0 ==> disk.disk.Image() == old(disk.disk.Image())
      ensures |chunk| > 0 && disk.ready ==>
        Mirrored(old(disk.View()), old(disk.inodes[..]), StreamOf(fd).node, disk.View())
    {
      WriteAllAppend(s0, done, chunk);
      var n := Write(fd, chunk);
    }

    // The same, with what happens on the disk
    method WriteCopied(fd: nat, chunk: string, ghost s0: Stream, ghost done: seq<string>, ghost fds0: seq<Fd>,
        ghost fs0: seq<Node>, ghost room: bool, ghost before: map<seq<DL.Byte>, seq<DL.Byte>>)
      requires Valid() && InRange(s0) && fd >= 3 && Wrote(fd, s0, done, fds0, fs0)
      requires StreamOf(fd).node.name == s0.node.name && (room ==> Copied(fd, before, done))
      modifies this, fds, fs.nodes, disk, disk.inodes, disk.disk, disk.disk.sectors
      ensures Valid() && Wrote(fd, s0, done + [chunk], fds0, fs0) && StreamOf(fd).node.name == s0.node.name
      ensures disk.ready == old(disk.ready)
      ensures room ==> Copied(fd, before, done + [chunk])
    {
      ghost var view, t := if disk.ready then disk.View() else map[], disk.inodes[..];
      ghost var node := StreamOf(fd).node;
      WriteChunk(fd, chunk, s0, done, fds0, fs0);
      FlatAppend(done, chunk);
      if room && |chunk| > 0 {
        CopiedMore(before, view, t, Flat(done), node, StreamOf(fd).node, disk.View());
      }
    }

    // The disk holds the node under its name as soon as something was written; other files are as before.
    ghost predicate Copied(fd: nat, before: map<seq<DL.Byte>, seq<DL.Byte>>, done: seq<string>)
      requires Valid()
      reads this, fds, fs, fs.nodes, disk, disk.inodes, disk.disk.sectors
    {
      && OnNode(fd) && disk.ready && |StreamOf(fd).node.name| < 48
      && var node := StreamOf(fd).node;
      if Flat(done) == [] then disk.View() == before && HasRoom(before, disk.inodes[..], node.name)
      else disk.View() == before[ToBytes(node.name) := ToBytes(Bytes(node))]
    }

    ghost predicate CanCopy(fd: nat)
      requires Valid()
      reads this, fds, fs, fs.nodes, disk, disk.inodes, disk.disk.sectors
    {
      OnNode(fd) && disk.ready && |StreamOf(fd).node.name| < 48 &&
      HasRoom(disk.View(), disk.inodes[..], StreamOf(fd).node.name)
    }

    // One write call after the other
    method WriteChunks(fd: nat, chunks: seq<string>)
      requires Valid() && OnNode(fd) && fd >= 3
      modifies this, fds, fs.nodes, disk, disk.inodes, disk.disk, disk.disk.sectors
      ensures Valid() && Wrote(fd, old(StreamOf(fd)), chunks, old(fds[..]), old(fs.nodes[..]))
      ensures StreamOf(fd).node.name == old(StreamOf(fd)).node.name && disk.ready == old(disk.ready)
      ensures old(CanCopy(fd)) ==> Copied(fd, old(disk.View()), chunks)
    {
      ghost var s0 := StreamOf(fd);
      ghost var room, before := CanCopy(fd), if disk.ready then disk.View() else map[];
      var i := 0;
      assert chunks[..0] == [];
      while i < |chunks|
        invariant 0 <= i <= |chunks| && Valid()
        invariant Wrote(fd, s0, chunks[..i], old(fds[..]), old(fs.nodes[..]))
        invariant disk.ready == old(disk.ready) && StreamOf(fd).node.name == s0.node.name &&
            (room ==> Copied(fd, before, chunks[..i]))
      {
        assert chunks[..i + 1] == chunks[..i] + [chunks[i]];
        WriteCopied(fd, chunks[i], s0, chunks[..i], old(fds[..]), old(fs.nodes[..]), room, before);
        i := i + 1;
      }
      assert chunks[..i] == chunks;
    }

    method ReadChunk(fd: nat, count: nat, ghost s: Stream) returns (piece: string)
      requires Valid() && fd >= 3 && OnNode(fd) && StreamOf(fd) == s && s.offset <= s.node.size
      modifies fds
      ensures Valid() && OnNode(fd) && piece == Next(s, count) && StreamOf(fd) == After(s, count)
    {
      piece := Read(fd, count, seq(count, _ => ' '));
    }

    // One read call after the other
    method ReadChunks(fd: nat, counts: seq<nat>) returns (pieces: seq<string>)
      requires Valid() && OnNode(fd) && fd >= 3 && StreamOf(fd).offset <= StreamOf(fd).node.size
      modifies fds
      ensures Valid() && pieces == Pieces(old(StreamOf(fd)), counts)
    {
      pieces := [];
      ghost var s0, s := StreamOf(fd), StreamOf(fd);
      var i := 0;
      assert counts[0..] == counts;
      while i < |counts|
        invariant 0 <= i <= |counts| && Valid() && OnNode(fd) && StreamOf(fd) == s && s.offset <= s.node.size
        invariant pieces + Pieces(s, counts[i..]) == Pieces(s0, counts)
      {
        assert counts[i..][0] == counts[i] && counts[i..][1..] == counts[i + 1..];
        var piece := ReadChunk(fd, counts[i], s);
        s := After(s, counts[i]);
        pieces := pieces + [piece];
        i := i + 1;
      }
    }

    // writes, close
    method WriteAndClose(fd: nat, chunks: seq<string>)
      requires Valid() && 3 <= fd < MAX_FDS && OnNode(fd)
      modifies this, fds, fs.nodes, disk, disk.inodes, disk.disk, disk.disk.sectors
      ensures Valid() && FreeFd(fds[..]) < MAX_FDS && disk.ready == old(disk.ready)
      ensures SameTree(old(fs.nodes[..]), fs.nodes[..])
      ensures fs.nodes[old(fds[fd].node)] == WriteAll(old(StreamOf(fd)), chunks).node
      ensures old(CanCopy(fd)) && Flat(chunks) != [] ==>
        var node := fs.nodes[old(fds[fd].node)];
        disk.View() == old(disk.View())[ToBytes(node.name) := ToBytes(Bytes(node))]
    {
      WriteChunks(fd, chunks);
      var closed := Close(fd);
    }

    // writes and close, on an empty file
    method WriteFresh(fd: nat, chunks: seq<string>)
      requires Valid() && 3 <= fd < MAX_FDS && OnNode(fd) && StreamOf(fd).offset == 0 && StreamOf(fd).node.size == 0
      modifies this, fds, fs.nodes, disk, disk.inodes, disk.disk, disk.disk.sectors
      ensures Valid() && FreeFd(fds[..]) < MAX_FDS && disk.ready == old(disk.ready)
      ensures SameTree(old(fs.nodes[..]), fs.nodes[..])
      ensures Bytes(fs.nodes[old(fds[fd].node)]) == Upto(Flat(chunks), DATA_MAX)
      ensures old(CanCopy(fd)) && Flat(chunks) != [] ==>
        disk.View() == old(disk.View())[ToBytes(old(StreamOf(fd)).node.name) := ToBytes(Upto(Flat(chunks), DATA_MAX))]
    {
      FreshWritten(StreamOf(fd), chunks);
      WriteAndClose(fd, chunks);
    }

    // open with O_CREAT | O_TRUNC, writes, close
    method PutFile(path: string, chunks: seq<string>) returns (ret: int)
      requires Valid() && fs.IsTree() && CName(path) && Fits(path) && |BaseOf(path)| < NAME_MAX
      modifies this, fds, fs, fs.nodes, disk, disk.inodes, disk.disk, disk.disk.sectors
      ensures Valid() && ret == FirstOpen(old(fds[..]), old(fs.nodes[..]), path)
      ensures ret == 0 ==> FreeFd(fds[..]) < MAX_FDS
      ensures ret == 0 && ParentThere(old(fs.nodes[..]), path) ==>
          Holds(fs.nodes[..], path, Upto(Flat(chunks), DATA_MAX))
      ensures ret == 0 && Lost(old(fs.nodes[..]), path) ==> Resolved(fs.nodes[..], path) == -1
      ensures ret == 0 && ParentThere(old(fs.nodes[..]), path) && Flat(chunks) != [] && old(disk.ready) ==>
        var name := fs.nodes[Resolved(fs.nodes[..], path)].name;
        disk.ready && (|name| < 48 && HasRoom(old(disk.View()), old(disk.inodes[..]), name) ==>
          disk.View() == old(disk.View())[ToBytes(name) := ToBytes(Upto(Flat(chunks), 4096))])
    {
      ghost var fds0, fs0, depth0 := fds[..], fs.nodes[..], fs.depth;
      var fd := Open(path, 64 | 512);
      OpenedFresh(fds0, fs0, depth0, path, fd, fds[..], fs.nodes[..]);
      if fd < 0 { return fd; }
      ghost var fs1 := fs.nodes[..];
      WriteFresh(fd, chunks);
      SameResolved(fs1, fs.nodes[..], path);
      return 0;
    }

    /** open with O_APPEND, writes, close: what is written comes behind what was there, cut at 4096. */
    method AppendFile(path: string, chunks: seq<string>, ghost bytes: seq<char>) returns (ret: int)
      requires Valid() && CName(path) && Fits(path) && Holds(fs.nodes[..], path, bytes)
      modifies this, fds, fs, fs.nodes, disk, disk.inodes, disk.disk, disk.disk.sectors
      ensures Valid() && ret == if FreeFd(old(fds[..])) < 16 then 0 else -24
      ensures ret == 0 ==> Holds(fs.nodes[..], path, Upto(bytes + Flat(chunks), 4096))
    {
      var fd := Open(path, 1024);
      if fd < 0 { return fd; }
      ghost var s0, fs1 := StreamOf(fd), fs.nodes[..];
      WriteAndClose(fd, chunks);
      SameResolved(fs1, fs.nodes[..], path);
      StreamWritten(s0, chunks);
      AtEnd(s0, Flat(chunks));
      return 0;
    }

    // open, reads, close
    method GetFile(path: string, counts: seq<nat>, ghost bytes: seq<char>) returns (ret: int, pieces: seq<string>)
      requires Valid() && CName(path) && Fits(path) && FreeFd(fds[..]) < MAX_FDS
      modifies fds, fs, fs.nodes
      ensures Valid()
      ensures Resolved(old(fs.nodes[..]), path) == -1 ==> ret == -2 && pieces == []
      ensures Holds(old(fs.nodes[..]), path, bytes) ==> ret == 0 && Flat(pieces) == Upto(bytes, Sum(counts))
    {
      var fd := Open(path, 0);
      if fd < 0 { return fd, []; }
      ghost var s := StreamOf(fd);
      assert Bytes(s.node)[0..] == Bytes(s.node);
      pieces := ReadChunks(fd, counts);
      ReadPieces(s, counts);
      var closed := Close(fd);
      ret := 0;
    }

    /** A client that writes a file in chunks, opens it again and reads it: what it reads is what it
        wrote, cut at 4096 bytes, whatever the sizes of the calls. When the directory of the path is
        missing or a file, or the path ends in a slash, the second open does not find what the first
        one made. */
    method CopyThrough(path: string, chunks: seq<string>, counts: seq<nat>) returns (ret: int, pieces: seq<string>)
      requires Valid() && fs.IsTree() && CName(path) && Fits(path) && |BaseOf(path)| < NAME_MAX
      modifies this, fds, fs, fs.nodes, disk, disk.inodes, disk.disk, disk.disk.sectors
      ensures Valid()
      ensures var first := FirstOpen(old(fds[..]), old(fs.nodes[..]), path);
        && (first < 0 ==> ret == first && pieces == [])
        && (first == 0 && ParentThere(old(fs.nodes[..]), path) ==>
              ret == 0 && Flat(pieces) == Upto(Upto(Flat(chunks), DATA_MAX), Sum(counts)))
        && (first == 0 && Lost(old(fs.nodes[..]), path) ==> ret == -2 && pieces == [])
    {
      ret := PutFile(path, chunks);
      if ret < 0 { return ret, []; }
      ret, pieces := GetFile(path, counts, Upto(Flat(chunks), DATA_MAX));
    }
  }

  // One more write after those of `done`
  lemma CopiedMore(before: map<seq<DL.Byte>, seq<DL.Byte>>, view: map<seq<DL.Byte>, seq<DL.Byte>>, t: DL.Table,
                   done: seq<char>, was: Node, node: Node, after: map<seq<DL.Byte>, seq<DL.Byte>>)
    requires was.size <= |was.data| && node.size <= |node.data| && node.size <= DATA_MAX
    requires node.name == was.name && |node.name| < 48 && Mirrored(view, t, node, after)
    requires if done == [] then view == before && HasRoom(before, t, node.name)
             else view == before[ToBytes(node.name) := ToBytes(Bytes(was))]
    ensures after == before[ToBytes(node.name) := ToBytes(Bytes(node))]
  {
  }

  // The disk has the name, or an unused inode for it.
  ghost predicate HasRoom(files: map<seq<DL.Byte>, seq<DL.Byte>>, t: DL.Table, name: string) {
    ToBytes(name) in files || DM.FreeInode(t) < 32
  }

  lemma AtEnd(s: Stream, more: seq<char>)
    requires InRange(s) && s.offset == s.node.size
    ensures Bytes(s.node)[..s.offset] + Upto(more, 4096 - s.offset) == Upto(Bytes(s.node) + more, 4096)
  {
  }

  lemma {:induction false} FlatAppend(done: seq<string>, chunk: string)
    ensures Flat(done + [chunk]) == Flat(done) + chunk
  {
    if |done| == 0 {
      assert ([chunk])[1..] == [];
    } else {
      assert (done + [chunk])[1..] == done[1..] + [chunk];
      FlatAppend(done[1..], chunk);
    }
  }

  // The result of the first open of CopyThrough, 0 for a descriptor
  ghost function FirstOpen(fds: seq<Fd>, fs: seq<Node>, path: string): int
    requires |fds| == MAX_FDS && Shape(fs)
  {
    if FreeFd(fds) == 16 then -24 else if OpenNode(fs, path, true).ret == -1 then -2 else 0
  }

  // The path resolves, or at least its directory does.
  ghost predicate ParentThere(fs: seq<Node>, path: string)
    requires Shape(fs)
  {
    Resolved(fs, path) == -1 ==> DirThere(fs, path)
  }

  // A path without dots whose directory is missing, or is a file, or that ends in a slash
  ghost predicate Lost(fs: seq<Node>, path: string)
    requires Shape(fs)
  {
    !ParentThere(fs, path) && PlainPath(Tokens.Split(Body(path), '/'))
  }

  // The path leads to a node with these bytes.
  ghost predicate Holds(fs: seq<Node>, path: string, bytes: seq<char>)
    requires Shape(fs)
  {
    Resolved(fs, path) != -1 && Bytes(fs[Resolved(fs, path)]) == bytes
  }

  lemma SameResolved(a: seq<Node>, b: seq<Node>, path: string)
    requires Shape(a) && Shape(b) && SameTree(a, b)
    ensures Resolved(a, path) == Resolved(b, path)
  {
    ResolvedWalk(a, path);
    ResolvedWalk(b, path);
    WalkSame(a, b, 0, Tokens.Split(Body(path), '/'));
  }

  // After an open that creates and truncates, the path leads to the node, which is empty, or nowhere.
  lemma OpenedFresh(fds: seq<Fd>, fs: seq<Node>, depth: seq<nat>, path: string, ret: int, fds': seq<Fd>, fs': seq<Node>)
    requires |fds| == MAX_FDS && Tree(fs, depth) && |BaseOf(path)| < NAME_MAX && Shape(fs')
    requires Opened(fds, fs, path, O_CREAT | O_TRUNC, ret, fds', fs')
    ensures if ret < 0 then ret == FirstOpen(fds, fs, path) else FirstOpen(fds, fs, path) == 0
    ensures ret >= 0 ==>
      && 3 <= ret < |fds'| && Opens(fds'[ret]) && fds'[ret].offset == 0
      && 0 <= fds'[ret].node < NODES && fs'[fds'[ret].node].size == 0
      && (ParentThere(fs, path) ==> Resolved(fs', path) == fds'[ret].node)
      && (Lost(fs, path) ==> Resolved(fs', path) == -1)
  {
    OpenedEmpty(fds, fs, path, ret, fds', fs');
    if ret >= 0 { OpensAgain(fs, depth, path, fs'); }
  }

  lemma OpenedEmpty(fds: seq<Fd>, fs: seq<Node>, path: string, ret: int, fds': seq<Fd>, fs': seq<Node>)
    requires |fds| == MAX_FDS && Shape(fs) && Opened(fds, fs, path, O_CREAT | O_TRUNC, ret, fds', fs')
    ensures if ret < 0 then ret == FirstOpen(fds, fs, path) else FirstOpen(fds, fs, path) == 0
    ensures var o := OpenNode(fs, path, true);
      ret >= 0 ==>
      && o.ret != -1 && fs' == o.nodes[o.ret := o.nodes[o.ret].(size := 0)]
      && 3 <= ret < |fds'| && Opens(fds'[ret]) && fds'[ret].offset == 0 && fds'[ret].node == o.ret
  {
    assert Has(O_CREAT | O_TRUNC, O_CREAT) && Has(O_CREAT | O_TRUNC, O_TRUNC) && !Has(O_CREAT | O_TRUNC, O_APPEND);
  }

  lemma OpensAgain(fs: seq<Node>, depth: seq<nat>, path: string, fs': seq<Node>)
    requires Tree(fs, depth) && |BaseOf(path)| < NAME_MAX && Shape(fs')
    requires var o := OpenNode(fs, path, true); o.ret != -1 && fs' == o.nodes[o.ret := o.nodes[o.ret].(size := 0)]
    ensures ParentThere(fs, path) ==> Resolved(fs', path) == OpenNode(fs, path, true).ret
    ensures Lost(fs, path) ==> Resolved(fs', path) == -1
  {
    OpenFinds(fs, depth, path);
    OpenShape(fs, path);
    SameResolved(OpenNode(fs, path, true).nodes, fs', path);
  }

  lemma OpenShape(fs: seq<Node>, path: string)
    requires Shape(fs)
    ensures Shape(OpenNode(fs, path, true).nodes)
  {
    if Resolved(fs, path) == -1 { CreateShape(fs, ParentOf(fs, path), BaseOf(path)); }
  }

  lemma CreateShape(fs: seq<Node>, p: nat, name: string)
    requires Shape(fs) && p < NODES
    ensures Shape(DoCreate(fs, p, name).nodes)
  {
    var k := FreeNodeOf(fs);
    if k < NODES { AttachShape(fs, p, k, NewNode(fs[k], File, name, p)); }
  }

  lemma AttachShape(fs: seq<Node>, p: nat, k: nat, node: Node)
    requires Shape(fs) && p < NODES && k < NODES
    requires |node.data| == DATA_MAX && node.size <= DATA_MAX && 0 <= node.parent < NODES
    requires forall i :: 0 <= i < |node.children| ==> node.children[i] < NODES
    ensures Shape(Attach(fs, p, k, node))
  {
  }

  lemma OpenFinds(fs: seq<Node>, depth: seq<nat>, path: string)
    requires Tree(fs, depth) && |BaseOf(path)| < NAME_MAX && OpenNode(fs, path, true).ret != -1
    ensures Shape(OpenNode(fs, path, true).nodes)
    ensures ParentThere(fs, path) ==> Resolved(OpenNode(fs, path, true).nodes, path) == OpenNode(fs, path, true).ret
    ensures Lost(fs, path) ==> Resolved(OpenNode(fs, path, true).nodes, path) == -1
  {
    OpenShape(fs, path);
    if Resolved(fs, path) == -1 {
      if DirThere(fs, path) {
        CreateOpens(fs, depth, path);
      } else if Lost(fs, path) {
        CreateOpensExactly(fs, depth, path);
      }
    }
  }

  // Names of a pool after a create
  lemma CreateNames(fs: seq<Node>, p: int, name: string)
    requires Shape(fs) && -1 <= p < NODES && CNames(fs) && CName(name)
    ensures CNames(DoCreate(fs, p, name).nodes)
  {
  }

  // After a write: the DiskFS entry named after the node holds the node's bytes, every other entry is
  // as before; unless the name is new and the table is full.
  ghost predicate Mirrored(before: map<seq<DL.Byte>, seq<DL.Byte>>, t: DL.Table, node: Node,
                           after: map<seq<DL.Byte>, seq<DL.Byte>>)
    requires node.size <= |node.data|
  {
    |node.name| < DL.NAME_MAX ==>
      KernelDiskFS.PutOrFull(before, t, ToBytes(node.name), ToBytes(Bytes(node)), after)
  }
}
