/**
 The text editor's buffer (shell/editor.c): at most 64 lines of at most 127 characters, a cursor
 line `cy` and a cursor column `cx`.

 The reference is a flat string with one offset. The lemmas say what each key does to that string.
 */
module EditorModel {

  const MAX_LINES: nat := 64
  const LINE_LEN: nat := 128

  datatype Buffer = Buffer(text: seq<string>, cy: nat, cx: nat)

  predicate PlainLine(s: string) { |s| < LINE_LEN && '\0' !in s && '\n' !in s }

  ghost predicate Inv(b: Buffer) {
    && 1 <= |b.text| <= MAX_LINES
    && b.cy < |b.text| && b.cx <= |b.text[b.cy]|
    && forall i :: 0 <= i < |b.text| ==> PlainLine(b.text[i])
  }

  // ----- Keys -----

  function InsertAt(s: string, i: nat, c: char): string
    requires i <= |s|
  {
    s[..i] + [c] + s[i..]
  }

  function DropAt<T>(s: seq<T>, i: nat): seq<T>
    requires i < |s|
  {
    s[..i] + s[i + 1..]
  }

  // ed_insert_char: a full line takes no more characters
  function TypeChar(b: Buffer, c: char): Buffer
    requires Inv(b)
  {
    var line := b.text[b.cy];
    if |line| >= LINE_LEN - 1 then b
    else Buffer(b.text[b.cy := InsertAt(line, b.cx, c)], b.cy, b.cx + 1)
  }

  // ed_newline: split the line at the cursor, unless all 64 lines are in use
  function Enter(b: Buffer): Buffer
    requires Inv(b)
  {
    var line := b.text[b.cy];
    if |b.text| >= MAX_LINES then b
    else Buffer(b.text[..b.cy] + [line[..b.cx], line[b.cx..]] + b.text[b.cy + 1..], b.cy + 1, 0)
  }

  // ed_delete_char: drop the character before the cursor, or join with the line above if it fits
  function Backspace(b: Buffer): Buffer
    requires Inv(b)
  {
    var line := b.text[b.cy];
    if b.cx > 0 then Buffer(b.text[b.cy := DropAt(line, b.cx - 1)], b.cy, b.cx - 1)
    else if b.cy > 0 && |b.text[b.cy - 1]| + |line| < LINE_LEN - 1 then
      var above := b.text[b.cy - 1];
      Buffer(b.text[..b.cy - 1] + [above + line] + b.text[b.cy + 1..], b.cy - 1, |above|)
    else b
  }

  // ed_kill_line
  function KillLine(b: Buffer): Buffer
    requires Inv(b)
  {
    var rest := DropAt(b.text, b.cy);
    if rest == [] then Buffer([""], 0, 0)
    else Buffer(rest, if b.cy >= |rest| then |rest| - 1 else b.cy, 0)
  }

  function Min(a: nat, b: nat): nat { if a < b then a else b }

  function Up(b: Buffer): Buffer
    requires Inv(b)
  {
    if b.cy > 0 then b.(cy := b.cy - 1, cx := Min(b.cx, |b.text[b.cy - 1]|)) else b
  }

  function Down(b: Buffer): Buffer
    requires Inv(b)
  {
    if b.cy < |b.text| - 1 then b.(cy := b.cy + 1, cx := Min(b.cx, |b.text[b.cy + 1]|)) else b
  }

  function Left(b: Buffer): Buffer
    requires Inv(b)
  {
    if b.cx > 0 then b.(cx := b.cx - 1)
    else if b.cy > 0 then b.(cy := b.cy - 1, cx := |b.text[b.cy - 1]|)
    else b
  }

  function Right(b: Buffer): Buffer
    requires Inv(b)
  {
    if b.cx < |b.text[b.cy]| then b.(cx := b.cx + 1)
    else if b.cy < |b.text| - 1 then b.(cy := b.cy + 1, cx := 0)
    else b
  }

  const KEY_UP: int := 0x100
  const KEY_DOWN: int := 0x101
  const KEY_LEFT: int := 0x102
  const KEY_RIGHT: int := 0x103
  const KEY_HOME: int := 0x117
  const KEY_END: int := 0x118

  // One key in editor_run that neither saves nor leaves
  function Press(b: Buffer, key: int): Buffer
    requires Inv(b)
  {
    if key == 11 then KillLine(b)
    else if key == KEY_UP then Up(b)
    else if key == KEY_DOWN then Down(b)
    else if key == KEY_LEFT then Left(b)
    else if key == KEY_RIGHT then Right(b)
    else if key == KEY_HOME then b.(cx := 0)
    else if key == KEY_END then b.(cx := |b.text[b.cy]|)
    else if key == 10 || key == 13 then Enter(b)
    else if key == 8 then Backspace(b)
    else if 32 <= key < 127 then TypeChar(b, key as char)
    else b
  }

  lemma TypeCharInv(b: Buffer, c: char)
    requires Inv(b) && c != '\0' && c != '\n'
    ensures Inv(TypeChar(b, c))
  {
  }

  lemma EnterInv(b: Buffer)
    requires Inv(b)
    ensures Inv(Enter(b))
  {
    var line := b.text[b.cy];
    if |b.text| < MAX_LINES {
      assert PlainLine(line[..b.cx]) && PlainLine(line[b.cx..]);
    }
  }

  lemma BackspaceInv(b: Buffer)
    requires Inv(b)
    ensures Inv(Backspace(b))
  {
    if b.cx > 0 {
      assert PlainLine(DropAt(b.text[b.cy], b.cx - 1));
    }
  }

  lemma KillLineInv(b: Buffer)
    requires Inv(b)
    ensures Inv(KillLine(b))
  {
  }

  /** Every key keeps the buffer within its bounds. */
  lemma PressInv(b: Buffer, key: int)
    requires Inv(b)
    ensures Inv(Press(b, key))
  {
    if key == 11 {
      KillLineInv(b);
    } else if key == 10 || key == 13 {
      EnterInv(b);
    } else if key == 8 {
      BackspaceInv(b);
    } else if 32 <= key < 127 {
      TypeCharInv(b, key as char);
    }
  }

  // ----- The flat string -----

  // Every line followed by a newline
  function Lead(lines: seq<string>): string {
    if |lines| == 0 then "" else lines[0] + "\n" + Lead(lines[1..])
  }

  // Every line preceded by a newline
  function Trail(lines: seq<string>): string {
    if |lines| == 0 then "" else "\n" + lines[0] + Trail(lines[1..])
  }

  // The lines joined by newlines
  function Flat(lines: seq<string>): string
    requires |lines| > 0
  {
    lines[0] + Trail(lines[1..])
  }

  // Characters and newlines before the cursor
  function Offset(lines: seq<string>, cy: nat, cx: nat): nat
    requires cy <= |lines|
  {
    if cy == 0 then cx else |lines[0]| + 1 + Offset(lines[1..], cy - 1, cx)
  }

  function At(b: Buffer): nat
    requires Inv(b)
  {
    Offset(b.text, b.cy, b.cx)
  }

  lemma {:induction false} FlatAround(a: seq<string>, x: string, b: seq<string>)
    ensures Flat(a + [x] + b) == Lead(a) + x + Trail(b)
    ensures forall cx: nat :: Offset(a + [x] + b, |a|, cx) == |Lead(a)| + cx
  {
    var all := a + [x] + b;
    if |a| == 0 {
      assert all[1..] == b;
    } else {
      assert all[1..] == a[1..] + [x] + b;
      FlatAround(a[1..], x, b);
      TrailFlat(a[1..] + [x] + b);
    }
  }

  lemma TrailFlat(lines: seq<string>)
    requires |lines| > 0
    ensures Trail(lines) == "\n" + Flat(lines)
  {
  }

  lemma {:induction false} LeadConcat(a: seq<string>, x: string)
    ensures Lead(a + [x]) == Lead(a) + x + "\n"
  {
    if |a| == 0 {
      assert (a + [x])[1..] == [];
    } else {
      assert (a + [x])[1..] == a[1..] + [x];
      LeadConcat(a[1..], x);
    }
  }

  // The text around the cursor line
  lemma Around(b: Buffer)
    requires Inv(b)
    ensures Flat(b.text) == Lead(b.text[..b.cy]) + b.text[b.cy] + Trail(b.text[b.cy + 1..])
    ensures At(b) == |Lead(b.text[..b.cy])| + b.cx <= |Flat(b.text)|
  {
    assert b.text == b.text[..b.cy] + [b.text[b.cy]] + b.text[b.cy + 1..];
    FlatAround(b.text[..b.cy], b.text[b.cy], b.text[b.cy + 1..]);
  }

  // The same, for a buffer whose cursor line is replaced by x
  lemma Replaced(b: Buffer, x: string, cx: nat)
    requires Inv(b) && PlainLine(x) && cx <= |x|
    ensures var r := Buffer(b.text[b.cy := x], b.cy, cx);
      && Inv(r) && At(r) == |Lead(b.text[..b.cy])| + cx
      && Flat(r.text) == Lead(b.text[..b.cy]) + x + Trail(b.text[b.cy + 1..])
  {
    var r := Buffer(b.text[b.cy := x], b.cy, cx);
    Around(r);
    assert r.text[..b.cy] == b.text[..b.cy] && r.text[b.cy + 1..] == b.text[b.cy + 1..];
  }

  /** A printable key inserts that character at the cursor; a full line refuses it. */
  lemma TypeCharFlat(b: Buffer, c: char)
    requires Inv(b) && c != '\0' && c != '\n'
    ensures Inv(TypeChar(b, c))
    ensures var r, full := TypeChar(b, c), |b.text[b.cy]| == LINE_LEN - 1;
      if full then r == b
      else At(b) <= |Flat(b.text)| && Flat(r.text) == InsertAt(Flat(b.text), At(b), c) && At(r) == At(b) + 1
  {
    Around(b);
    var line := b.text[b.cy];
    if |line| < LINE_LEN - 1 {
      var x := InsertAt(line, b.cx, c);
      Replaced(b, x, b.cx + 1);
      InsertInside(Lead(b.text[..b.cy]), line, Trail(b.text[b.cy + 1..]), b.cx, c);
    }
  }

  lemma InsertInside(a: string, x: string, z: string, i: nat, c: char)
    requires i <= |x|
    ensures InsertAt(a + x + z, |a| + i, c) == a + InsertAt(x, i, c) + z
  {
  }

  lemma DropInside(a: string, x: string, z: string, i: nat)
    requires i < |x|
    ensures DropAt(a + x + z, |a| + i) == a + DropAt(x, i) + z
  {
  }

  lemma Regroup(a: string, x: string, n: string, y: string, z: string)
    ensures a + x + n + y + z == a + (x + n + y) + z
  {
  }

  // A buffer whose cursor line is split in two
  lemma SplitFlat(a: seq<string>, x: string, y: string, z: seq<string>)
    ensures Flat(a + [x, y] + z) == Lead(a) + x + "\n" + y + Trail(z)
    ensures Offset(a + [x, y] + z, |a| + 1, 0) == |Lead(a)| + |x| + 1
  {
    assert a + [x, y] + z == (a + [x]) + [y] + z;
    LeadConcat(a, x);
    FlatAround(a + [x], y, z);
  }

  /** Enter inserts a newline at the cursor, unless 64 lines are in use. */
  lemma EnterFlat(b: Buffer)
    requires Inv(b)
    ensures Inv(Enter(b))
    ensures if |b.text| == MAX_LINES then Enter(b) == b
      else (&& At(b) <= |Flat(b.text)| && At(Enter(b)) == At(b) + 1
            && Flat(Enter(b).text) == InsertAt(Flat(b.text), At(b), '\n'))
  {
    EnterInv(b);
    Around(b);
    if |b.text| < MAX_LINES {
      var line, a, z := b.text[b.cy], b.text[..b.cy], b.text[b.cy + 1..];
      SplitFlat(a, line[..b.cx], line[b.cx..], z);
      InsertInside(Lead(a), line, Trail(z), b.cx, '\n');
      Regroup(Lead(a), line[..b.cx], "\n", line[b.cx..], Trail(z));
    }
  }

  // Backspace at the start of a line whose contents do not fit on the line above
  predicate JoinTooLong(b: Buffer)
    requires Inv(b)
  {
    b.cx == 0 && b.cy > 0 && |b.text[b.cy - 1]| + |b.text[b.cy]| >= LINE_LEN - 1
  }

  lemma JoinFlat(a: seq<string>, x: string, y: string, z: seq<string>)
    ensures Flat(a + [x, y] + z) == Lead(a) + (x + "\n" + y) + Trail(z)
    ensures DropAt(x + "\n" + y, |x|) == x + y
  {
    SplitFlat(a, x, y, z);
    Regroup(Lead(a), x, "\n", y, Trail(z));
  }

  /** Backspace removes the character, or the newline, before the cursor; at the start of the text,
      and when the joined line would be too long, it does nothing. */
  lemma BackspaceFlat(b: Buffer)
    requires Inv(b)
    ensures Inv(Backspace(b))
    ensures if At(b) == 0 || JoinTooLong(b) then Backspace(b) == b
      else (&& At(b) <= |Flat(b.text)| && At(Backspace(b)) == At(b) - 1
            && Flat(Backspace(b).text) == DropAt(Flat(b.text), At(b) - 1))
  {
    BackspaceInv(b);
    Around(b);
    var line := b.text[b.cy];
    if b.cx > 0 {
      Replaced(b, DropAt(line, b.cx - 1), b.cx - 1);
      DropInside(Lead(b.text[..b.cy]), line, Trail(b.text[b.cy + 1..]), b.cx - 1);
    } else if b.cy > 0 {
      BackspaceJoins(b);
    }
  }

  lemma BackspaceJoins(b: Buffer)
    requires Inv(b) && b.cx == 0 && b.cy > 0
    ensures 0 < At(b) <= |Flat(b.text)| && Inv(Backspace(b))
    ensures !JoinTooLong(b) ==>
      Flat(Backspace(b).text) == DropAt(Flat(b.text), At(b) - 1) && At(Backspace(b)) == At(b) - 1
  {
    BackspaceInv(b);
    var a, x, y, z := b.text[..b.cy - 1], b.text[b.cy - 1], b.text[b.cy], b.text[b.cy + 1..];
    assert b.text == a + [x, y] + z;
    SplitFlat(a, x, y, z);
    assert At(b) == |Lead(a)| + |x| + 1;
    if !JoinTooLong(b) {
      JoinFlat(a, x, y, z);
      DropInside(Lead(a), x + "\n" + y, Trail(z), |x|);
      FlatAround(a, x + y, z);
    }
  }

  // A cursor column, counted from the start of its line
  lemma OffsetColumn(lines: seq<string>, cy: nat, cx: nat)
    requires cy <= |lines|
    ensures Offset(lines, cy, cx) == Offset(lines, cy, 0) + cx
  {
  }

  lemma {:induction false} OffsetNext(lines: seq<string>, cy: nat)
    requires cy < |lines|
    ensures Offset(lines, cy + 1, 0) == Offset(lines, cy, 0) + |lines[cy]| + 1
  {
    if cy > 0 {
      OffsetNext(lines[1..], cy - 1);
    }
  }

  /** Left and Right move the offset by one and stop at the ends of the text. */
  lemma LeftRightFlat(b: Buffer)
    requires Inv(b)
    ensures Inv(Left(b)) && Left(b).text == b.text && At(Left(b)) == if At(b) > 0 then At(b) - 1 else 0
    ensures Inv(Right(b)) && Right(b).text == b.text
    ensures At(Right(b)) == if At(b) < |Flat(b.text)| then At(b) + 1 else At(b)
  {
    Around(b);
    OffsetColumn(b.text, b.cy, b.cx);
    OffsetColumn(b.text, b.cy, b.cx + 1);
    if b.cy > 0 {
      OffsetNext(b.text, b.cy - 1);
      OffsetColumn(b.text, b.cy - 1, |b.text[b.cy - 1]|);
    }
    OffsetNext(b.text, b.cy);
    if b.cx > 0 {
      OffsetColumn(b.text, b.cy, b.cx - 1);
    }
    TrailEnd(b);
  }

  // The cursor is at the end of the text exactly at the end of the last line.
  lemma TrailEnd(b: Buffer)
    requires Inv(b)
    ensures At(b) == |Flat(b.text)| <==> b.cy == |b.text| - 1 && b.cx == |b.text[b.cy]|
  {
    Around(b);
    var z := b.text[b.cy + 1..];
    assert |z| > 0 ==> |Trail(z)| > 0;
  }

  /** Ctrl-K removes the line with one adjoining newline, if there is one, and leaves the cursor at
      the start of a line. */
  lemma KillLineFlat(b: Buffer)
    requires Inv(b)
    ensures Inv(KillLine(b)) && KillLine(b).cx == 0
    ensures var r, start, len := KillLine(b), At(b.(cx := 0)), |b.text[b.cy]|;
      var flat := Flat(b.text);
      && start + len <= |flat|
      && (b.cy < |b.text| - 1 ==>
        start + len + 1 <= |flat| && Flat(r.text) == flat[..start] + flat[start + len + 1..] && At(r) == start)
      && (0 < b.cy == |b.text| - 1 ==>
        start > 0 && Flat(r.text) == flat[..start - 1] && At(r) == start - 1 - |b.text[b.cy - 1]|)
      && (|b.text| == 1 ==> Flat(r.text) == "" && At(r) == 0)
  {
    KillLineInv(b);
    Around(b.(cx := 0));
    if b.cy < |b.text| - 1 {
      KillMiddle(b.text[..b.cy], b.text[b.cy], b.text[b.cy + 1..]);
      assert KillLine(b).text == b.text[..b.cy] + b.text[b.cy + 1..];
    } else if b.cy > 0 {
      KillLast(b);
    }
  }

  lemma KillMiddle(a: seq<string>, x: string, z: seq<string>)
    requires |z| > 0
    ensures var flat, start := Lead(a) + x + Trail(z), |Lead(a)|;
      && start + |x| + 1 <= |flat|
      && Flat(a + z) == flat[..start] + flat[start + |x| + 1..]
      && Offset(a + z, |a|, 0) == start
  {
    assert a + z == a + [z[0]] + z[1..];
    FlatAround(a, z[0], z[1..]);
    CutLine(Lead(a), x, z[0], Trail(z[1..]));
  }

  lemma CutLine(a: string, x: string, y: string, z: string)
    ensures var flat := a + x + ("\n" + y + z);
      flat[..|a|] + flat[|a| + |x| + 1..] == a + y + z
  {
    var flat := a + x + ("\n" + y + z);
    assert flat[..|a|] == a;
    assert flat[|a| + |x| + 1..] == y + z;
  }

  lemma KillLast(b: Buffer)
    requires Inv(b) && 0 < b.cy == |b.text| - 1
    ensures var r, start := KillLine(b), At(b.(cx := 0));
      && Inv(r) && 0 < start <= |Flat(b.text)|
      && Flat(r.text) == Flat(b.text)[..start - 1] && At(r) == start - 1 - |b.text[b.cy - 1]|
  {
    KillLineInv(b);
    var a, w, x := b.text[..b.cy - 1], b.text[b.cy - 1], b.text[b.cy];
    assert b.text == a + [w, x] + [];
    assert KillLine(b).text == a + [w] + [];
    SplitFlat(a, w, x, []);
    FlatAround(a, w, []);
    assert Flat(b.text) == Lead(a) + w + "\n" + x;
    assert Flat(b.text)[..|Lead(a)| + |w|] == Lead(a) + w;
  }

  /** Enter then Backspace restores the buffer exactly when the line had fewer than 127
      characters. */
  lemma EnterBackspace(b: Buffer)
    requires Inv(b) && |b.text| < MAX_LINES
    ensures Inv(Enter(b))
    ensures Backspace(Enter(b)) == b <==> |b.text[b.cy]| < LINE_LEN - 1
  {
    EnterInv(b);
    var e := Enter(b);
    var line := b.text[b.cy];
    assert e.text[b.cy] == line[..b.cx] && e.text[b.cy + 1] == line[b.cx..];
    if |line| < LINE_LEN - 1 {
      assert line[..b.cx] + line[b.cx..] == line;
      assert e.text[..b.cy] == b.text[..b.cy] && e.text[b.cy + 2..] == b.text[b.cy + 1..];
    } else {
      assert Backspace(e) == e;
      assert |e.text| == |b.text| + 1;
    }
  }

  /** A typed character is taken back by Backspace, unless the line was full and the cursor not at
      its start. */
  lemma TypeBackspace(b: Buffer, c: char)
    requires Inv(b) && c != '\0' && c != '\n'
    ensures Inv(TypeChar(b, c))
    ensures Backspace(TypeChar(b, c)) == b <==> |b.text[b.cy]| < LINE_LEN - 1 || b.cx == 0
  {
    TypeCharFlat(b, c);
    var line := b.text[b.cy];
    if |line| < LINE_LEN - 1 {
      assert DropAt(InsertAt(line, b.cx, c), b.cx) == line;
      assert b.text[b.cy := InsertAt(line, b.cx, c)][b.cy := line] == b.text;
    }
  }

  // ----- All keys -----

  // The keys that change the text, on the flat text
  lemma EditKeys(b: Buffer, key: int)
    requires Inv(b)
    ensures Inv(Press(b, key)) && At(b) <= |Flat(b.text)|
    ensures var flat, at, r := Flat(b.text), At(b), Press(b, key);
      && (key == 10 || key == 13 ==>
        if |b.text| == 64 then r == b else Flat(r.text) == flat[..at] + "\n" + flat[at..] && At(r) == at + 1)
      && (32 <= key <= 126 ==>
        if |b.text[b.cy]| == 127 then r == b
        else Flat(r.text) == flat[..at] + [key as char] + flat[at..] && At(r) == at + 1)
      && (key == 8 ==>
        if at == 0 || (b.cx == 0 && |b.text[b.cy - 1]| + |b.text[b.cy]| >= 127) then r == b
        else Flat(r.text) == flat[..at - 1] + flat[at..] && At(r) == at - 1)
  {
    PressInv(b, key);
    Around(b);
    if key == 10 || key == 13 {
      EnterFlat(b);
    } else if key == 8 {
      BackspaceFlat(b);
      StartOfText(b);
    } else if 32 <= key <= 126 {
      TypeCharFlat(b, key as char);
    }
  }

  lemma StartOfText(b: Buffer)
    requires Inv(b)
    ensures At(b) == 0 <==> b.cy == 0 && b.cx == 0
  {
  }

  // Ctrl+K: the line goes, and one newline with it if there is one
  lemma KillKey(b: Buffer)
    requires Inv(b)
    ensures var flat, r := Flat(b.text), Press(b, 11);
      var start, stop := At(b) - b.cx, At(b) - b.cx + |b.text[b.cy]|;
      && Inv(r) && 0 <= start <= stop <= |flat| && r.cx == 0
      && (b.cy < |b.text| - 1 ==> stop < |flat| && Flat(r.text) == flat[..start] + flat[stop + 1..] && At(r) == start)
      && (0 < b.cy == |b.text| - 1 ==>
        start > 0 && Flat(r.text) == flat[..start - 1] && At(r) == start - 1 - |b.text[b.cy - 1]|)
      && (|b.text| == 1 ==> Flat(r.text) == "" && At(r) == 0)
  {
    OffsetColumn(b.text, b.cy, b.cx);
    OffsetColumn(b.text, b.cy, 0);
    KillLineFlat(b);
  }

  // The keys that move the cursor, and all others, keep the text.
  lemma MoveKeys(b: Buffer, key: int)
    requires Inv(b)
    ensures var r, at, last := Press(b, key), At(b), |b.text| - 1;
      && (key == 0x102 ==> r.text == b.text && At(r) == if at > 0 then at - 1 else 0)
      && (key == 0x103 ==> r.text == b.text && At(r) == if at < |Flat(b.text)| then at + 1 else at)
      && (key == 0x117 ==> r == Buffer(b.text, b.cy, 0))
      && (key == 0x118 ==> r == Buffer(b.text, b.cy, |b.text[b.cy]|))
      && (key == 0x100 ==> r.text == b.text && MovedTo(b, r, if b.cy > 0 then b.cy - 1 else 0))
      && (key == 0x101 ==> r.text == b.text && MovedTo(b, r, if b.cy < last then b.cy + 1 else last))
      && (key !in {8, 10, 11, 13, 0x100, 0x101, 0x102, 0x103, 0x117, 0x118} && !(32 <= key <= 126) ==> r == b)
  {
    LeftRightFlat(b);
  }

  // The cursor is on line cy, in its old column or at the end of the line if that comes first.
  predicate MovedTo(b: Buffer, r: Buffer, cy: nat)
    requires cy < |b.text|
  {
    r.cy == cy && r.cx <= b.cx && r.cx <= |b.text[cy]| && (r.cx == b.cx || r.cx == |b.text[cy]|)
  }

  lemma {:induction false} FlatOne(a: seq<string>, b: seq<string>)
    requires |a| > 0 && |b| > 0 && Flat(a) == Flat(b)
    requires forall i :: 0 <= i < |a| ==> '\n' !in a[i]
    requires forall i :: 0 <= i < |b| ==> '\n' !in b[i]
    ensures a == b
  {
    FirstLine(a, b);
    if |a| > 1 {
      TrailFlat(a[1..]);
      TrailFlat(b[1..]);
      assert Trail(a[1..]) == Flat(a)[|a[0]|..] == Flat(b)[|b[0]|..] == Trail(b[1..]);
      assert Flat(a[1..]) == Trail(a[1..])[1..] == Trail(b[1..])[1..] == Flat(b[1..]);
      FlatOne(a[1..], b[1..]);
      assert a == [a[0]] + a[1..] && b == [b[0]] + b[1..];
    }
  }

  lemma FirstLine(a: seq<string>, b: seq<string>)
    requires |a| > 0 && |b| > 0 && Flat(a) == Flat(b)
    requires '\n' !in a[0] && '\n' !in b[0]
    ensures a[0] == b[0] && (|a| == 1 <==> |b| == 1)
  {
    LineEnds(a);
    LineEnds(b);
  }

  // The first line ends at the first newline, or at the end of the text when it is the only one.
  lemma LineEnds(a: seq<string>)
    requires |a| > 0 && '\n' !in a[0]
    ensures var flat, n := Flat(a), |a[0]|;
      && n <= |flat| && flat[..n] == a[0] && (forall i :: 0 <= i < n ==> flat[i] != '\n')
      && (n < |flat| <==> |a| > 1) && (n < |flat| ==> flat[n] == '\n')
  {
    if |a| > 1 { assert Trail(a[1..])[0] == '\n'; }
  }

  lemma {:induction false} OffsetGrows(lines: seq<string>, cy: nat, cx: nat, cy': nat, cx': nat)
    requires cy < cy' < |lines| && cx <= |lines[cy]|
    ensures Offset(lines, cy, cx) < Offset(lines, cy', cx')
  {
    if cy > 0 {
      OffsetGrows(lines[1..], cy - 1, cx, cy' - 1, cx');
    }
  }

  /** The flat text and the offset determine the buffer, so the statements about them leave no other
      result to any key. */
  lemma FlatDetermines(a: Buffer, b: Buffer)
    requires Inv(a) && Inv(b) && Flat(a.text) == Flat(b.text) && At(a) == At(b)
    ensures a == b
  {
    FlatOne(a.text, b.text);
    if a.cy < b.cy {
      OffsetGrows(a.text, a.cy, a.cx, b.cy, b.cx);
    } else if b.cy < a.cy {
      OffsetGrows(a.text, b.cy, b.cx, a.cy, a.cx);
    } else {
      OffsetColumn(a.text, a.cy, a.cx);
      OffsetColumn(a.text, a.cy, b.cx);
    }
  }
}
