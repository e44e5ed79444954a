/**
 The editor on RamFS (shell/editor.c:148-197): ed_save and ed_load look the file up in the root
 directory, and write or read it as a whole.
 */
module EditorStore {
  import opened RamTree
  import opened RamView
  import opened KernelRamFS
  import opened TextEditor
  import EditorModel
  import EditorFile
  import opened FileStream
  import Tokens

  // The node that ed_save writes to: the one with the name, or else a new file; -1 for none
  function Target(fs: seq<Node>, name: string): Change
    requires Shape(fs)
  {
    if Find(fs, 0, name) != -1 then Change(fs, Find(fs, 0, name)) else DoCreate(fs, 0, name)
  }

  // The file that ed_load reads
  predicate Stands(fs: seq<Node>, name: string)
    requires Shape(fs)
  {
    Find(fs, 0, name) != -1 && fs[Find(fs, 0, name)].kind == File
  }

  // What ed_load makes of it
  function TextOf(fs: seq<Node>, name: string): seq<string>
    requires Shape(fs)
  {
    if Stands(fs, name) then EditorFile.Loaded(Bytes(fs[Find(fs, 0, name)])) else [""]
  }

  // What ed_save leaves when it has these bytes to write
  ghost predicate Saved(fs: seq<Node>, name: string, data: string, fs': seq<Node>)
    requires Shape(fs)
  {
    var o := Target(fs, name);
    && Shape(o.nodes) && -1 <= o.ret < NODES
    && fs' == if o.ret != -1 && o.nodes[o.ret].kind == File && |data| <= DATA_MAX then Filled(o.nodes, o.ret, data)
              else o.nodes
  }

  method SaveFile(ed: Editor, fs: RamFS, name: string)
    requires ed.Valid() && fs.Valid() && |name| < NAME_MAX
    modifies ed`dirty, fs, fs.nodes
    ensures ed.Valid() && ed.State() == old(ed.State()) && fs.Valid()
    ensures Saved(old(fs.nodes[..]), name, EditorFile.Serial(ed.Text(), 0), fs.nodes[..])
    ensures ed.dirty == (old(ed.dirty) && Target(old(fs.nodes[..]), name).ret == -1)
    ensures old(fs.IsTree()) ==> fs.IsTree()
  {
    ghost var fs0 := fs.nodes[..];
    var f := Lookup(fs, name);
    if f == -1 { return; }
    var data := ed.Save();
    Overwrite(fs, f, data);
  }

  method Lookup(fs: RamFS, name: string) returns (f: int)
    requires fs.Valid() && |name| < NAME_MAX
    modifies fs, fs.nodes
    ensures fs.Valid() && -1 <= f < NODES && Change(fs.nodes[..], f) == Target(old(fs.nodes[..]), name)
    ensures old(fs.IsTree()) ==> fs.IsTree()
  {
    f := fs.FindNode(0, name);
    if f == -1 { f := fs.Create(0, name); }
  }

  // ramfs_write of a whole buffer
  method Overwrite(fs: RamFS, f: nat, data: string)
    requires fs.Valid() && f < NODES && |data| <= DATA_MAX
    modifies fs.nodes
    ensures fs.Valid()
    ensures fs.nodes[..] == if old(fs.nodes[f]).kind == File then Filled(old(fs.nodes[..]), f, data)
                            else old(fs.nodes[..])
    ensures old(fs.IsTree()) ==> fs.IsTree()
  {
    ghost var fs0 := fs.nodes[..];
    var r := fs.Write(f, data + [Tokens.NUL], |data|);
    assert (data + [Tokens.NUL])[..|data|] == data;
    if fs0[f].kind == File {
      assert r == |data| && (if |data| == 0 then Tokens.CString(data + [Tokens.NUL]) else data) == data;
      assert fs.nodes[f] == Filled(fs0, f, data)[f];
      assert fs.nodes[..] == Filled(fs0, f, data);
      if Tree(fs0, fs.depth) { SameIsTree(fs0, fs.nodes[..], fs.depth); }
    }
  }

  method LoadFile(ed: Editor, fs: RamFS, name: string)
    requires ed.Valid() && fs.Valid()
    modifies ed, ed.lines
    ensures ed.Valid() && ed.State() == EditorModel.Buffer(TextOf(fs.nodes[..], name), 0, 0)
  {
    var f := fs.FindNode(0, name);
    var n, buf := fs.Read(f, DATA_MAX);
    ed.Load(buf);
  }

  /** One round of the loop of editor_run: Ctrl+S and F2 save, Ctrl+Q and ESC leave, after a question if
      there are changes, and every other key goes to the buffer. */
  method OneKey(ed: Editor, fs: RamFS, name: string, key: int, answer: char) returns (leave: bool)
    requires ed.Valid() && fs.Valid() && |name| < NAME_MAX
    modifies ed, ed.lines, fs, fs.nodes
    ensures ed.Valid() && fs.Valid()
    ensures var saves := key == 19 || key == 0x10B ||
        ((key == 17 || key == 27) && old(ed.dirty) && answer in {'s', 'S'});
      if saves then Saved(old(fs.nodes[..]), name, EditorFile.Serial(old(ed.Text()), 0), fs.nodes[..])
      else fs.nodes[..] == old(fs.nodes[..])
    ensures if key in {17, 19, 27, 0x10B} then ed.State() == old(ed.State())
            else ed.State() == EditorModel.Press(old(ed.State()), key)
    ensures leave <==> (key == 17 || key == 27) && (!old(ed.dirty) || answer in {'s', 'S', 'n', 'N'})
    ensures old(fs.IsTree()) ==> fs.IsTree()
  {
    if key == 19 || key == 0x10B {
      SaveFile(ed, fs, name);
      return false;
    }
    if key == 17 || key == 27 {
      if !ed.dirty { return true; }
      if answer == 's' || answer == 'S' {
        SaveFile(ed, fs, name);
        return true;
      }
      return answer == 'n' || answer == 'N';
    }
    ed.OnKey(key);
    return false;
  }

  // ----- There and back -----

  lemma FindKept(a: seq<Node>, b: seq<Node>, name: string)
    requires Shape(a) && Shape(b) && SameTree(a, b)
    ensures Find(a, 0, name) == Find(b, 0, name)
  {
    FindFromSame(a, b, a[0].children, name);
  }

  // The node that was found or made is found again.
  lemma TargetFound(fs: seq<Node>, depth: seq<nat>, name: string)
    requires Tree(fs, depth) && Target(fs, name).ret != -1 && |name| < NAME_MAX
    ensures var o := Target(fs, name); Shape(o.nodes) && Find(o.nodes, 0, name) == o.ret
  {
    if Find(fs, 0, name) == -1 {
      var k := FreeNodeOf(fs);
      assert fs[k].children == [];
      FindAdded(fs, depth, 0, k, NewNode(fs[k], File, name, 0), 0, name);
    }
  }

  // After a save to a file, the file holds the bytes.
  lemma SavedStands(fs: seq<Node>, depth: seq<nat>, name: string, data: string, fs': seq<Node>)
    requires Tree(fs, depth) && |name| < NAME_MAX && |data| <= DATA_MAX && Saved(fs, name, data, fs')
    requires Savable(fs, name)
    ensures Shape(fs') && Stands(fs', name) && Bytes(fs'[Find(fs', 0, name)]) == data
  {
    var o := Target(fs, name);
    TargetFound(fs, depth, name);
    FilledBytes(o.nodes, o.ret, data);
    FindKept(o.nodes, fs', name);
  }

  lemma FilledBytes(fs: seq<Node>, f: nat, data: string)
    requires Shape(fs) && f < NODES && |data| <= DATA_MAX
    ensures var r := Filled(fs, f, data);
      Shape(r) && SameTree(fs, r) && r[f].kind == fs[f].kind && Bytes(r[f]) == data
  {
  }

  // There is a file with the name, or room to make one.
  predicate Savable(fs: seq<Node>, name: string)
    requires Shape(fs)
  {
    Target(fs, name).ret != -1 && (Stands(fs, name) || Find(fs, 0, name) == -1)
  }

  lemma NotSaved(fs: seq<Node>, name: string, data: string, fs': seq<Node>)
    requires Shape(fs) && fs[0].kind == Dir && Saved(fs, name, data, fs') && !Savable(fs, name)
    ensures fs' == fs && !Stands(fs, name)
  {
  }

  /** ed_save and then ed_load: the editor gets back the lines that it saved and one empty line, cut to
      64, if the text fits the file. When the name stands for a directory, or there is no room for a new
      file, the lines are gone. */
  method SaveAndLoad(ed: Editor, fs: RamFS, name: string)
    requires ed.Valid() && fs.IsTree() && |name| < NAME_MAX
    modifies ed, ed.lines, fs, fs.nodes
    ensures ed.Valid() && fs.IsTree()
    ensures var text := old(ed.Text());
      if !Savable(old(fs.nodes[..]), name) then ed.State() == EditorModel.Buffer([""], 0, 0)
      else |EditorModel.Lead(text)| <= DATA_MAX - 2 ==>
        ed.State() == EditorModel.Buffer(EditorFile.Take(text + [""], EditorModel.MAX_LINES), 0, 0)
  {
    ghost var fs0, depth, text := fs.nodes[..], fs.depth, ed.Text();
    ghost var data := EditorFile.Serial(text, 0);
    SaveFile(ed, fs, name);
    if Savable(fs0, name) {
      SavedStands(fs0, depth, name, data, fs.nodes[..]);
    } else {
      NotSaved(fs0, name, data, fs.nodes[..]);
    }
    LoadFile(ed, fs, name);
    if |EditorModel.Lead(text)| <= DATA_MAX - 2 { EditorFile.SaveThenLoad(text); }
  }

  /** ed_load and then ed_save of a file without NULs: the file gets exactly one newline more, exactly
      when it has at most 4093 bytes, lines of at most 127 and fewer than 64 newlines. */
  method LoadAndSave(ed: Editor, fs: RamFS, name: string)
    requires ed.Valid() && fs.IsTree() && |name| < NAME_MAX && Stands(fs.nodes[..], name)
    modifies ed, ed.lines, fs, fs.nodes
    ensures ed.Valid() && fs.IsTree() && Stands(fs.nodes[..], name)
    ensures var bytes, after := old(Bytes(fs.nodes[Find(fs.nodes[..], 0, name)])),
        Bytes(fs.nodes[Find(fs.nodes[..], 0, name)]);
      Tokens.NUL !in bytes ==> (after == bytes + "\n" <==>
        && |bytes| <= DATA_MAX - 3 && EditorFile.Newlines(bytes) < EditorModel.MAX_LINES
        && forall i :: 0 <= i < |EditorFile.Fields(bytes)| ==> |EditorFile.Fields(bytes)[i]| < EditorModel.LINE_LEN)
  {
    ghost var fs0, depth := fs.nodes[..], fs.depth;
    ghost var bytes := Bytes(fs0[Find(fs0, 0, name)]);
    LoadFile(ed, fs, name);
    SaveFile(ed, fs, name);
    SavedStands(fs0, depth, name, EditorFile.Serial(EditorFile.Loaded(bytes), 0), fs.nodes[..]);
    if Tokens.NUL !in bytes { EditorFile.LoadThenSave(bytes); }
  }
}
