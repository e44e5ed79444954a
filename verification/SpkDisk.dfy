/**
 A list of DiskFS writes as changes of the file map (pkg/spk.c:60-71 with fs/diskfs.c:88-119): each
 name ends up with its last bytes, as long as unused inodes last.
 */
module SpkDisk {
  import opened DiskLayout
  import opened DiskModel
  import opened DiskOps

  // ----- Unused inodes -----

  function Unused(t: Table): (n: nat)
    ensures n == MAX_FILES - CountUsed(t)
  {
    UsedSlotsBound(t);
    MAX_FILES - CountUsed(t)
  }

  lemma {:induction false} AllUsed(t: seq<Inode>)
    requires forall i :: 0 <= i < |t| ==> t[i].used != 0
    ensures CountUsed(t) == |t|
  {
    if |t| > 0 {
      AllUsed(t[..|t| - 1]);
    }
  }

  lemma NoneUnused(t: Table)
    ensures FreeInode(t) == MAX_FILES <==> Unused(t) == 0
  {
    if FreeInode(t) == MAX_FILES { AllUsed(t); } else { CountFull(t, FreeInode(t)); }
  }

  // A write takes an unused inode for a new name, while there is one.
  lemma UnusedAfter(m: Mem, name: seq<Byte>, data: seq<Byte>)
    requires Good(m)
    ensures Padded(DoWrite(m, name, data).mem.table)
    ensures Unused(DoWrite(m, name, data).mem.table) ==
            if Find(m.table, name) == MAX_FILES && Unused(m.table) > 0 then Unused(m.table) - 1 else Unused(m.table)
  {
    var t, i, size := m.table, Find(m.table, name), |Clip(data)|;
    NoneUnused(t);
    if i < MAX_FILES {
      CountUpdate(t, i, t[i].(size := size));
    } else if FreeInode(t) < MAX_FILES {
      FreeSlotExists(t);
      CountUpdate(t, FreeInode(t), NewInode(name, size, FreeSlot(t)));
    }
  }

  // ----- Writes one after the other -----

  datatype DiskPut = DiskPut(name: seq<Byte>, bytes: seq<Byte>)

  // The files, and the number of inodes left
  datatype Store = Store(files: map<seq<Byte>, seq<Byte>>, free: nat)

  function PutOne(s: Store, p: DiskPut): Store {
    if p.name in s.files then s.(files := s.files[p.name := p.bytes])
    else if s.free > 0 then Store(s.files[p.name := p.bytes], s.free - 1)
    else s
  }

  function Puts(s: Store, ps: seq<DiskPut>): Store {
    if |ps| == 0 then s else PutOne(Puts(s, ps[..|ps| - 1]), ps[|ps| - 1])
  }

  // Index of the last write of a name, -1 if there is none
  function LastPut(ps: seq<DiskPut>, name: seq<Byte>): (j: int)
    ensures -1 <= j < |ps| && (j >= 0 ==> ps[j].name == name)
    ensures forall k :: j < k < |ps| ==> ps[k].name != name
  {
    if |ps| == 0 then -1
    else if ps[|ps| - 1].name == name then |ps| - 1
    else LastPut(ps[..|ps| - 1], name)
  }

  // The names that need an inode
  ghost function NewNames(files: map<seq<Byte>, seq<Byte>>, ps: seq<DiskPut>): set<seq<Byte>> {
    set i | 0 <= i < |ps| && ps[i].name !in files :: ps[i].name
  }

  lemma NewNamesMore(files: map<seq<Byte>, seq<Byte>>, ps: seq<DiskPut>)
    requires |ps| > 0
    ensures var init, name := NewNames(files, ps[..|ps| - 1]), ps[|ps| - 1].name;
      && NewNames(files, ps) == (if name in files then init else init + {name})
      && |NewNames(files, ps)| == |init| + if name in files || name in init then 0 else 1
  {
    var init, last := ps[..|ps| - 1], ps[|ps| - 1];
    assert ps == init + [last];
    NamesAppend(files, init, last);
    var less := NewNames(files, init);
    if last.name in less { assert less + {last.name} == less; }
  }

  lemma NamesAppend(files: map<seq<Byte>, seq<Byte>>, init: seq<DiskPut>, last: DiskPut)
    ensures NewNames(files, init + [last]) == NewNames(files, init) + if last.name in files then {} else {last.name}
  {
    var ps := init + [last];
    assert forall i :: 0 <= i < |init| ==> ps[i] == init[i];
    assert ps[|init|] == last;
  }

  lemma NewNameListed(files: map<seq<Byte>, seq<Byte>>, ps: seq<DiskPut>, name: seq<Byte>)
    ensures name in NewNames(files, ps) <==> name !in files && LastPut(ps, name) != -1
  {
    if LastPut(ps, name) != -1 && name !in files {
      assert ps[LastPut(ps, name)].name == name;
    }
  }

  // What the files are for one name after all writes, when there is room
  ghost predicate PutAt(files: map<seq<Byte>, seq<Byte>>, ps: seq<DiskPut>,
                        after: map<seq<Byte>, seq<Byte>>, name: seq<Byte>)
  {
    var j := LastPut(ps, name);
    if j == -1 then (name in after <==> name in files) && (name in files ==> after[name] == files[name])
    else name in after && after[name] == ps[j].bytes
  }

  /** With an unused inode for every new name, each name has the bytes of its last write, every other
      name has what it had, and exactly the new names took an inode. */
  lemma {:induction false} PutsHold(s: Store, ps: seq<DiskPut>)
    requires |NewNames(s.files, ps)| <= s.free
    ensures forall name :: PutAt(s.files, ps, Puts(s, ps).files, name)
    ensures Puts(s, ps).free == s.free - |NewNames(s.files, ps)|
    decreases |ps|
  {
    if |ps| > 0 {
      var init, last := ps[..|ps| - 1], ps[|ps| - 1];
      NewNamesMore(s.files, ps);
      PutsHold(s, init);
      NewNameListed(s.files, init, last.name);
      var before := Puts(s, init);
      assert PutAt(s.files, init, before.files, last.name);
      forall name ensures PutAt(s.files, ps, Puts(s, ps).files, name) {
        assert PutAt(s.files, init, before.files, name);
      }
    }
  }

  // Every write either finds its name or takes an inode or does nothing.
  lemma {:induction false} PutsSize(s: Store, ps: seq<DiskPut>)
    ensures |Puts(s, ps).files.Keys| + Puts(s, ps).free == |s.files.Keys| + s.free
    decreases |ps|
  {
    if |ps| > 0 {
      PutsSize(s, ps[..|ps| - 1]);
      var before, p := Puts(s, ps[..|ps| - 1]), ps[|ps| - 1];
      assert before.files[p.name := p.bytes].Keys == before.files.Keys + {p.name};
      if p.name in before.files { assert before.files.Keys + {p.name} == before.files.Keys; }
    }
  }

  ghost predicate AllPut(s: Store, ps: seq<DiskPut>, after: map<seq<Byte>, seq<Byte>>) {
    forall name :: PutAt(s.files, ps, after, name)
  }

  /** The room is needed: otherwise some name does not get its bytes. */
  lemma PutsExactly(s: Store, ps: seq<DiskPut>)
    ensures AllPut(s, ps, Puts(s, ps).files) <==> |NewNames(s.files, ps)| <= s.free
  {
    if |NewNames(s.files, ps)| <= s.free {
      PutsHold(s, ps);
    } else if AllPut(s, ps, Puts(s, ps).files) {
      var all, after := s.files.Keys + NewNames(s.files, ps), Puts(s, ps).files;
      assert s.files.Keys * NewNames(s.files, ps) == {};
      forall name | name in all ensures name in after.Keys {
        NewNameListed(s.files, ps, name);
        assert PutAt(s.files, ps, after, name);
      }
      SubsetSize(all, after.Keys);
      PutsSize(s, ps);
    }
  }

  lemma SubsetSize<T>(a: set<T>, b: set<T>)
    requires a <= b
    ensures |a| <= |b|
  {
    assert b == a + (b - a);
  }

  lemma {:induction false} PutsAppend(s: Store, a: seq<DiskPut>, p: DiskPut)
    ensures Puts(s, a + [p]) == PutOne(Puts(s, a), p)
  {
    assert (a + [p])[..|a|] == a;
  }
}
