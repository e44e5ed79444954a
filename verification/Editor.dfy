/**
 The editor's line buffer, edited in place (shell/editor.c).

 `lines` is the 64x128 character array; a row is a NUL-terminated C string and the characters after
 the NUL are left over from earlier text. Every method shifts and copies characters as the C code
 does and is tied to the key functions of `EditorModel`.
 */
module TextEditor {
  import opened EditorModel
  import opened EditorFile
  import opened Tokens

  type Row = s: seq<char> | |s| == 128 witness seq(128, _ => '\0')

  class Editor {
    const lines: array<Row>
    var nlines: int
    var cx: int
    var cy: int
    var dirty: bool

    ghost predicate Valid()
      reads this, lines
    {
      && lines.Length == MAX_LINES && 0 <= nlines <= MAX_LINES && 0 <= cx && 0 <= cy
      && Inv(State())
    }

    ghost function Text(): seq<string>
      requires 0 <= nlines <= lines.Length
      reads this, lines
    {
      Strings(lines[..nlines])
    }

    ghost function State(): Buffer
      requires 0 <= nlines <= lines.Length && 0 <= cx && 0 <= cy
      reads this, lines
    {
      Buffer(Text(), cy, cx)
    }

    // An empty buffer, as ed_load leaves it for a new file
    constructor ()
      ensures Valid() && State() == Buffer([""], 0, 0) && !dirty && fresh(lines)
    {
      lines := new Row[MAX_LINES](_ => seq(128, _ => NUL));
      nlines, cx, cy, dirty := 1, 0, 0, false;
      new;
      CStringIs(lines[0], 0);
      assert Text() == [""];
    }

    // strlen
    method StrLen(r: nat) returns (n: nat)
      requires r < lines.Length && |CString(lines[r])| < LINE_LEN
      ensures n == |CString(lines[r])|
    {
      n := 0;
      while lines[r][n] != NUL
        invariant n <= |CString(lines[r])|
        decreases LINE_LEN - n
      {
        n := n + 1;
      }
    }

    // strcpy(lines[d], lines[s] + from)
    method StrCpy(d: nat, s: nat, from: nat)
      requires d < lines.Length && s < lines.Length && d != s
      requires from <= |CString(lines[s])| < LINE_LEN
      modifies lines
      ensures CString(lines[d]) == old(CString(lines[s]))[from..]
      ensures forall r :: 0 <= r < lines.Length && r != d ==> lines[r] == old(lines[r])
    {
      var i := 0;
      ghost var src := lines[s];
      ghost var str := CString(src);
      while true
        invariant 0 <= i <= |str| - from
        invariant forall r :: 0 <= r < lines.Length && r != d ==> lines[r] == old(lines[r])
        invariant forall k :: 0 <= k < i ==> lines[d][k] == src[from + k]
        decreases |str| - from - i
      {
        lines[d] := lines[d][i := lines[s][from + i]];
        if lines[d][i] == NUL { break; }
        i := i + 1;
      }
      assert i == |str| - from;
      assert lines[d][..i] == str[from..];
      CStringIs(lines[d], i);
    }

    // strcat(lines[d], lines[s])
    method StrCat(d: nat, s: nat)
      requires d < lines.Length && s < lines.Length && d != s
      requires |CString(lines[d])| + |CString(lines[s])| < LINE_LEN
      modifies lines
      ensures CString(lines[d]) == old(CString(lines[d]) + CString(lines[s]))
      ensures forall r :: 0 <= r < lines.Length && r != d ==> lines[r] == old(lines[r])
    {
      var n := StrLen(d);
      ghost var src, dst := CString(lines[s]), CString(lines[d]);
      var i := 0;
      while true
        invariant 0 <= i <= |src|
        invariant forall r :: 0 <= r < lines.Length && r != d ==> lines[r] == old(lines[r])
        invariant lines[d][..n] == dst
        invariant forall k :: 0 <= k < i ==> lines[d][n + k] == src[k]
        decreases |src| - i
      {
        lines[d] := lines[d][n + i := lines[s][i]];
        if lines[d][n + i] == NUL { break; }
        i := i + 1;
      }
      assert i == |src|;
      assert lines[d][..n + i] == dst + src;
      CStringIs(lines[d], n + i);
    }

    // The loop of ed_insert_char: open a gap at `at` in a string of length len
    method OpenGap(r: nat, at: nat, len: nat)
      requires r < lines.Length && at <= len < LINE_LEN - 1
      modifies lines
      ensures forall k :: 0 <= k < lines.Length && k != r ==> lines[k] == old(lines[k])
      ensures forall k :: 0 <= k < at ==> lines[r][k] == old(lines[r])[k]
      ensures forall k :: at < k <= len + 1 ==> lines[r][k] == old(lines[r])[k - 1]
    {
      var i := len;
      ghost var row := lines[r];
      while i >= at
        invariant at - 1 <= i <= len
        invariant forall k :: 0 <= k < lines.Length && k != r ==> lines[k] == old(lines[k])
        invariant forall k :: 0 <= k <= i + 1 && k < LINE_LEN ==> lines[r][k] == row[k]
        invariant forall k :: i + 1 < k <= len + 1 ==> lines[r][k] == row[k - 1]
      {
        lines[r] := lines[r][i + 1 := lines[r][i]];
        i := i - 1;
      }
    }

    // The loop of ed_delete_char: close over position `at`, moving the terminator too
    method CloseGap(r: nat, at: nat, len: nat)
      requires r < lines.Length && at < len < LINE_LEN
      modifies lines
      ensures forall k :: 0 <= k < lines.Length && k != r ==> lines[k] == old(lines[k])
      ensures forall k :: 0 <= k < at ==> lines[r][k] == old(lines[r])[k]
      ensures forall k :: at <= k < len ==> lines[r][k] == old(lines[r])[k + 1]
    {
      var i := at;
      ghost var row := lines[r];
      while i < len
        invariant at <= i <= len
        invariant forall k :: 0 <= k < lines.Length && k != r ==> lines[k] == old(lines[k])
        invariant forall k :: 0 <= k < at ==> lines[r][k] == row[k]
        invariant forall k :: at <= k < i ==> lines[r][k] == row[k + 1]
        invariant forall k :: i <= k < LINE_LEN ==> lines[r][k] == row[k]
      {
        lines[r] := lines[r][i := lines[r][i + 1]];
        i := i + 1;
      }
    }

    // Copies rows from + 1 .. nlines - 1 one row up
    method RowsUp(from: nat)
      requires 0 <= nlines <= lines.Length && from < nlines
      requires forall r :: 0 <= r < nlines ==> |CString(lines[r])| < LINE_LEN
      modifies lines
      ensures forall r :: 0 <= r < from ==> lines[r] == old(lines[r])
      ensures forall r :: from <= r < nlines - 1 ==> CString(lines[r]) == old(CString(lines[r + 1]))
    {
      var i := from;
      while i < nlines - 1
        invariant from <= i <= nlines - 1
        invariant forall r :: 0 <= r < from ==> lines[r] == old(lines[r])
        invariant forall r :: from <= r < i ==> CString(lines[r]) == old(CString(lines[r + 1]))
        invariant forall r :: i <= r < nlines ==> lines[r] == old(lines[r])
      {
        StrCpy(i, i + 1, 0);
        i := i + 1;
      }
    }

    // Copies rows after .. nlines - 1 one row down
    method RowsDown(after: nat)
      requires 0 <= nlines < lines.Length && after <= nlines
      requires forall r :: 0 <= r < nlines ==> |CString(lines[r])| < LINE_LEN
      modifies lines
      ensures forall r :: 0 <= r < after ==> lines[r] == old(lines[r])
      ensures forall r :: after < r <= nlines ==> CString(lines[r]) == old(CString(lines[r - 1]))
    {
      var i := nlines;
      while i > after
        invariant after <= i <= nlines
        invariant forall r :: 0 <= r <= i && r < nlines ==> lines[r] == old(lines[r])
        invariant forall r :: i < r <= nlines ==> CString(lines[r]) == old(CString(lines[r - 1]))
      {
        StrCpy(i, i - 1, 0);
        i := i - 1;
      }
    }

    // What Valid says about single rows
    lemma RowsPlain()
      requires Valid()
      ensures cy < nlines && forall r :: 0 <= r < nlines ==>
        CString(lines[r]) == Text()[r] && PlainLine(CString(lines[r]))
      ensures cx <= |CString(lines[cy])|
    {
    }

    // The branches of the C function for cy >= nlines are never taken: the cursor line exists.
    method InsertChar(c: char)
      requires Valid() && c != NUL && c != '\n'
      modifies this, lines
      ensures Valid() && State() == TypeChar(old(State()), c)
      ensures dirty == (old(dirty) || State() != old(State()))
    {
      RowsPlain();
      TypeCharInv(State(), c);
      ghost var b := State();
      var len := StrLen(cy);
      if len >= LINE_LEN - 1 { return; }
      ghost var row, line := lines[cy], CString(lines[cy]);
      OpenGap(cy, cx, len);
      lines[cy] := lines[cy][cx := c];
      ghost var str := InsertAt(line, cx, c);
      Inserted(row, lines[cy], cx, c);
      cx := cx + 1;
      dirty := true;
      assert Text() == b.text[cy := str];
    }

    method DeleteChar()
      requires Valid()
      modifies this, lines
      ensures Valid() && State() == Backspace(old(State()))
      ensures dirty == (old(dirty) || State() != old(State()))
    {
      RowsPlain();
      BackspaceInv(State());
      ghost var b := State();
      var len := StrLen(cy);
      if cx > 0 {
        DropLeft(b.text, len);
        cx := cx - 1;
        dirty := true;
      } else if cy > 0 {
        JoinAbove(len);
      }
    }

    // Backspace at the start of a line
    method DropLeft(ghost t: seq<string>, len: nat)
      requires lines.Length == MAX_LINES && 0 <= cy < nlines <= MAX_LINES && Text() == t
      requires 0 < cx <= len == |t[cy]| < LINE_LEN
      modifies lines
      ensures Text() == t[cy := DropAt(t[cy], cx - 1)]
    {
      ghost var row := lines[cy];
      assert CString(row) == t[cy];
      CloseGap(cy, cx - 1, len);
      Closed(row, lines[cy], cx - 1);
    }

    method JoinAbove(len: nat)
      requires Valid() && cx == 0 && cy > 0 && len == |CString(lines[cy])|
      modifies this, lines
      ensures 1 <= nlines <= MAX_LINES && 0 <= cx && 0 <= cy && State() == Backspace(old(State()))
      ensures dirty == (old(dirty) || State() != old(State()))
    {
      RowsPlain();
      var plen := StrLen(cy - 1);
      if plen + len < LINE_LEN - 1 {
        MoveUp(Text());
        cx := plen;
        nlines := nlines - 1;
        cy := cy - 1;
        dirty := true;
      }
    }

    // The copying of a join: the line goes to the end of the one above, the others one row up
    method MoveUp(ghost t: seq<string>)
      requires 0 < cy < nlines <= lines.Length && |t| == nlines
      requires forall r :: 0 <= r < nlines ==> CString(lines[r]) == t[r] && |t[r]| < LINE_LEN
      requires |t[cy - 1]| + |t[cy]| < LINE_LEN - 1
      modifies lines
      ensures Strings(lines[..nlines - 1]) == t[..cy - 1] + [t[cy - 1] + t[cy]] + t[cy + 1..]
    {
      StrCat(cy - 1, cy);
      RowsUp(cy);
      JoinRows(lines[..nlines - 1], t, cy - 1, t[cy - 1] + t[cy]);
    }

    method Newline()
      requires Valid()
      modifies this, lines
      ensures Valid() && State() == Enter(old(State()))
      ensures dirty == (old(dirty) || State() != old(State()))
    {
      if nlines >= MAX_LINES { return; }
      Entered(State());
      RowsPlain();
      SplitLine(Text());
      cy := cy + 1;
      cx := 0;
      dirty := true;
    }

    // The copying of a split: rows below go down, the rest of the line gets its own row
    method SplitLine(ghost t: seq<string>)
      requires lines.Length == MAX_LINES && 0 <= cy < nlines < MAX_LINES && |t| == nlines && 0 <= cx <= |t[cy]|
      requires forall r :: 0 <= r < nlines ==> CString(lines[r]) == t[r] && |t[r]| < LINE_LEN
      modifies `nlines, lines
      ensures nlines == old(nlines) + 1
      ensures Text() == t[..cy] + [t[cy][..cx], t[cy][cx..]] + t[cy + 1..]
    {
      RowsDown(cy + 1);
      ghost var rows := lines[..];
      nlines := nlines + 1;
      CutLine(cy, cx);
      SplitAll(lines[..], rows, t, cy, cx, nlines);
    }

    // The rest of row r from column `at` on becomes the row below it.
    method CutLine(r: nat, at: nat)
      requires r + 1 < lines.Length && at <= |CString(lines[r])| < LINE_LEN
      modifies lines
      ensures CString(lines[r]) == old(CString(lines[r]))[..at] && CString(lines[r + 1]) == old(CString(lines[r]))[at..]
      ensures forall k :: 0 <= k < lines.Length && k != r && k != r + 1 ==> lines[k] == old(lines[k])
    {
      StrCpy(r + 1, r, at);
      Truncate(r, at);
    }

    // line[at] = 0
    method Truncate(r: nat, at: nat)
      requires r < lines.Length && at <= |CString(lines[r])| < LINE_LEN
      modifies lines
      ensures CString(lines[r]) == old(CString(lines[r]))[..at]
      ensures forall k :: 0 <= k < lines.Length && k != r ==> lines[k] == old(lines[k])
    {
      assert lines[r][..at] == CString(lines[r])[..at];
      PutChar(r, at, NUL);
    }

    method RemoveRow(ghost t: seq<string>)
      requires lines.Length == MAX_LINES && 0 <= cy < nlines <= MAX_LINES && |t| == nlines
      requires forall r :: 0 <= r < nlines ==> CString(lines[r]) == t[r] && |t[r]| < LINE_LEN
      modifies `nlines, lines
      ensures 1 <= nlines <= MAX_LINES && Text() == if DropAt(t, cy) == [] then [""] else DropAt(t, cy)
    {
      RowsUp(cy);
      nlines := nlines - 1;
      DropRows(lines[..nlines], t, cy);
      KeepOne();
    }

    // An empty line in place of no line
    method KeepOne()
      requires lines.Length == MAX_LINES && 0 <= nlines <= MAX_LINES
      modifies `nlines, lines
      ensures 1 <= nlines <= MAX_LINES && Text() == if old(nlines) == 0 then [""] else old(Text())
    {
      if nlines == 0 {
        nlines := 1;
        lines[0] := lines[0][0 := NUL];
        CStringIs(lines[0], 0);
        assert Text() == [""];
      }
    }

    method KillLine()
      requires Valid()
      modifies this, lines
      ensures Valid() && State() == EditorModel.KillLine(old(State())) && dirty
    {
      RowsPlain();
      KillLineInv(State());
      RemoveRow(Text());
      if cy >= nlines { cy := nlines - 1; }
      cx := 0;
      dirty := true;
    }

    method CursorUp()
      requires Valid()
      modifies `cx, `cy
      ensures Valid() && State() == Up(old(State()))
    {
      RowsPlain();
      if cy > 0 {
        cy := cy - 1;
        var len := StrLen(cy);
        if cx > len { cx := len; }
      }
    }

    method CursorDown()
      requires Valid()
      modifies `cx, `cy
      ensures Valid() && State() == Down(old(State()))
    {
      RowsPlain();
      if cy < nlines - 1 {
        cy := cy + 1;
        var len := StrLen(cy);
        if cx > len { cx := len; }
      }
    }

    method CursorLeft()
      requires Valid()
      modifies `cx, `cy
      ensures Valid() && State() == Left(old(State()))
    {
      RowsPlain();
      if cx > 0 {
        cx := cx - 1;
      } else if cy > 0 {
        cy := cy - 1;
        cx := StrLen(cy);
      }
    }

    method CursorRight()
      requires Valid()
      modifies `cx, `cy
      ensures Valid() && State() == Right(old(State()))
    {
      RowsPlain();
      var len := StrLen(cy);
      if cx < len {
        cx := cx + 1;
      } else if cy < nlines - 1 {
        cy := cy + 1;
        cx := 0;
      }
    }

    // The key dispatch of editor_run
    method OnKey(key: int)
      requires Valid()
      modifies this, lines
      ensures Valid() && State() == Press(old(State()), key)
    {
      RowsPlain();
      if key == 11 { KillLine(); }
      else if key == KEY_UP { CursorUp(); }
      else if key == KEY_DOWN { CursorDown(); }
      else if key == KEY_LEFT { CursorLeft(); }
      else if key == KEY_RIGHT { CursorRight(); }
      else if key == KEY_HOME { cx := 0; }
      else if key == KEY_END { cx := StrLen(cy); }
      else if key == 10 || key == 13 { Newline(); }
      else if key == 8 { DeleteChar(); }
      else if 32 <= key < 127 { InsertChar(key as char); }
    }

    // ed_save up to ramfs_write: the bytes handed to the file
    method Save() returns (data: string)
      requires Valid()
      modifies `dirty
      ensures data == Serial(Text(), 0) && !dirty
    {
      RowsPlain();
      data := SaveRows(Text());
      dirty := false;
    }

    // The loop of ed_save
    method SaveRows(ghost text: seq<string>) returns (data: string)
      requires 0 <= nlines == |text| && nlines <= lines.Length
      requires forall r :: 0 <= r < nlines ==> CString(lines[r]) == text[r] && |text[r]| < LINE_LEN
      ensures data == Serial(text, 0)
    {
      data := "";
      var i := 0;
      assert text[0..] == text;
      while i < nlines && |data| < DATA_MAX - 2
        invariant 0 <= i <= nlines && |data| <= DATA_MAX - 2
        invariant data + Serial(text[i..], |data|) == Serial(text, 0)
      {
        var l := StrLen(i);
        if |data| + l + 1 >= DATA_MAX - 1 {
          SavedNone(text, i, |data|);
          break;
        }
        SavedMore(text, i, data);
        data := data + lines[i][..l];
        data := data + "\n";
        i := i + 1;
      }
    }

    // ed_load on the bytes of an existing file
    method Load(data: string)
      requires Valid() && |data| <= DATA_MAX
      modifies this, lines
      ensures Valid() && State() == Buffer(Loaded(data), 0, 0)
    {
      nlines := 1;
      lines[0] := lines[0][0 := NUL];
      cx, cy := 0, 0;
      CStringIs(lines[0], 0);
      LoadedPlain(data);
      if |data| == 0 {
        assert Text() == [""];
        return;
      }
      Parse(data);
    }

    method PutChar(r: nat, col: nat, c: char)
      requires r < lines.Length && col < LINE_LEN
      modifies lines
      ensures lines[r][..col + 1] == old(lines[r])[..col] + [c]
      ensures c == NUL && NUL !in old(lines[r])[..col] ==> CString(lines[r]) == old(lines[r])[..col]
      ensures forall k :: 0 <= k < lines.Length && k != r ==> lines[k] == old(lines[k])
    {
      ghost var row := lines[r];
      lines[r] := lines[r][col := c];
      assert lines[r][..col] == row[..col];
      if c == NUL && NUL !in row[..col] { CStringIs(lines[r], col); }
    }

    // The rows done so far, and the row at work up to column col
    ghost predicate Rows(col: nat, done: seq<string>, cur: string)
      requires lines.Length == MAX_LINES
      reads this, lines
    {
      && |done| == nlines <= MAX_LINES && NUL !in cur && col == |ClipLine(cur)|
      && (nlines < MAX_LINES ==> lines[nlines][..col] == ClipLine(cur))
      && forall k :: 0 <= k < nlines ==> CString(lines[k]) == ClipLine(done[k])
    }

    lemma RowsText(col: nat, done: seq<string>, cur: string)
      requires lines.Length == MAX_LINES && Rows(col, done, cur)
      ensures 0 <= nlines <= MAX_LINES && Text() == ClipAll(done)
    {
    }

    // One character of the text
    method ParseChar(c: char, col: nat, ghost data: string, ghost i: nat, ghost done: seq<string>, ghost cur: string)
      returns (next: nat, ghost done': seq<string>, ghost cur': string)
      requires lines.Length == MAX_LINES && 0 <= nlines < MAX_LINES && Rows(col, done, cur)
      requires i <= |data| && c == (data + [NUL])[i] && Parsed(data, i, done, cur)
      modifies `nlines, lines
      ensures 0 <= nlines && Rows(next, done', cur') && Parsed(data, i + 1, done', cur')
    {
      if c == '\n' || c == NUL {
        EndRow(col, done, cur);
        ParsedEnd(data, i, done, cur);
        next, done', cur' := 0, done + [cur], "";
      } else {
        next := GrowRow(col, done, cur, c);
        ParsedChar(data, i, done, cur);
        done', cur' := done, cur + [c];
      }
    }

    // lines[nlines++][col] = 0
    method EndRow(col: nat, ghost done: seq<string>, ghost cur: string)
      requires lines.Length == MAX_LINES && 0 <= nlines < MAX_LINES && Rows(col, done, cur)
      modifies `nlines, lines
      ensures nlines == old(nlines) + 1 && Rows(0, done + [cur], "")
    {
      PutChar(nlines, col, NUL);
      nlines := nlines + 1;
    }

    // One character of a row, dropped when the row is full
    method GrowRow(col: nat, ghost done: seq<string>, ghost cur: string, c: char) returns (next: nat)
      requires lines.Length == MAX_LINES && 0 <= nlines < MAX_LINES && Rows(col, done, cur) && c != NUL
      modifies lines
      ensures Rows(next, done, cur + [c])
    {
      ClipGrow(cur, c);
      next := col;
      if col < LINE_LEN - 1 {
        PutChar(nlines, col, c);
        next := col + 1;
      }
    }

    // Line ends close a row; characters past column 127 are dropped
    method Parse(data: string)
      requires lines.Length == MAX_LINES && |data| <= DATA_MAX
      modifies `nlines, lines
      ensures 1 <= nlines <= lines.Length && Text() == Loaded(data)
    {
      var buf := data + [NUL];
      nlines := 0;
      var col, i := 0, 0;
      ghost var done: seq<string>, cur := [], "";
      ParsedStart(data);
      while i <= |data| && nlines < MAX_LINES
        invariant 0 <= i <= |data| + 1 && 0 <= col && 0 <= nlines
        invariant Parsed(data, i, done, cur) && Rows(col, done, cur)
      {
        col, done, cur := ParseChar(buf[i], col, data, i, done, cur);
        i := i + 1;
      }
      ParsedDone(data, i, done, cur);
      RowsText(col, done, cur);
    }
  }

  ghost function Strings(rows: seq<Row>): (t: seq<string>)
    ensures |t| == |rows| && forall i :: 0 <= i < |rows| ==> t[i] == CString(rows[i])
  {
    seq(|rows|, i requires 0 <= i < |rows| => CString(rows[i]))
  }

  lemma Entered(b: Buffer)
    requires Inv(b) && |b.text| < MAX_LINES
    ensures var line := b.text[b.cy];
      var r := Buffer(b.text[..b.cy] + [line[..b.cx], line[b.cx..]] + b.text[b.cy + 1..], b.cy + 1, 0);
      Enter(b) == r != b && Inv(r)
  {
    EnterInv(b);
  }

  // One row of the saving loop
  lemma SavedMore(text: seq<string>, i: nat, data: string)
    requires i < |text| && |data| < DATA_MAX - 2 && |data| + |text[i]| + 1 < DATA_MAX - 1
    ensures var more := data + text[i] + "\n";
      data + Serial(text[i..], |data|) == more + Serial(text[i + 1..], |more|)
  {
    assert text[i..][0] == text[i] && text[i..][1..] == text[i + 1..];
    SerialMore(text[i..], data);
  }

  lemma SavedNone(text: seq<string>, i: nat, used: nat)
    requires i < |text| && used + |text[i]| + 1 >= DATA_MAX - 1
    ensures Serial(text[i..], used) == ""
  {
    SerialNone(text[i..], used);
  }

  // The string in a row after a gap was opened and filled
  lemma Inserted(row: Row, row': Row, at: nat, c: char)
    requires at <= |CString(row)| < LINE_LEN - 1 && c != NUL && row'[at] == c
    requires forall k :: 0 <= k < at ==> row'[k] == row[k]
    requires forall k :: at < k <= |CString(row)| + 1 ==> row'[k] == row[k - 1]
    ensures CString(row') == InsertAt(CString(row), at, c)
  {
    var len, str := |CString(row)|, InsertAt(CString(row), at, c);
    InsertedPrefix(row, row', at, c, len);
    assert NUL !in str;
    CStringIs(row', len + 1);
  }

  lemma InsertedPrefix(row: Row, row': Row, at: nat, c: char, len: nat)
    requires at <= len < LINE_LEN - 1 && row'[at] == c
    requires forall k :: 0 <= k < at ==> row'[k] == row[k]
    requires forall k :: at < k <= len + 1 ==> row'[k] == row[k - 1]
    ensures row'[..len + 1] == InsertAt(row[..len], at, c) && row'[len + 1] == row[len]
  {
  }

  // The string in a row after a position was closed over
  lemma Closed(row: Row, row': Row, at: nat)
    requires at < |CString(row)| < LINE_LEN
    requires forall k :: 0 <= k < at ==> row'[k] == row[k]
    requires forall k :: at <= k < |CString(row)| ==> row'[k] == row[k + 1]
    ensures CString(row') == DropAt(CString(row), at)
  {
    var len := |CString(row)|;
    ClosedPrefix(row, row', at, len);
    CStringIs(row', len - 1);
  }

  lemma ClosedPrefix(row: Row, row': Row, at: nat, len: nat)
    requires at < len < LINE_LEN
    requires forall k :: 0 <= k < at ==> row'[k] == row[k]
    requires forall k :: at <= k < len ==> row'[k] == row[k + 1]
    ensures row'[..len - 1] == DropAt(row[..len], at) && row'[len - 1] == row[len]
  {
  }

  // Rows of a text whose line at cy was split into x and y
  lemma SplitRows(rows: seq<Row>, t: seq<string>, cy: nat, x: string, y: string)
    requires cy < |t| && |rows| == |t| + 1
    requires forall r :: 0 <= r < cy ==> CString(rows[r]) == t[r]
    requires CString(rows[cy]) == x && CString(rows[cy + 1]) == y
    requires forall r :: cy + 1 < r < |rows| ==> CString(rows[r]) == t[r - 1]
    ensures Strings(rows) == t[..cy] + [x, y] + t[cy + 1..]
  {
  }

  // All rows after the rest of line cy was cut off at cx
  lemma SplitAll(rows: seq<Row>, before: seq<Row>, t: seq<string>, cy: nat, cx: nat, n: nat)
    requires cy < |t| && n == |t| + 1 <= |rows| == |before| && cx <= |t[cy]|
    requires forall r :: 0 <= r < cy ==> CString(before[r]) == t[r]
    requires forall r :: cy + 1 < r < n ==> CString(before[r]) == t[r - 1]
    requires CString(rows[cy]) == t[cy][..cx] && CString(rows[cy + 1]) == t[cy][cx..]
    requires forall k :: 0 <= k < |rows| && k != cy && k != cy + 1 ==> rows[k] == before[k]
    ensures Strings(rows[..n]) == t[..cy] + [t[cy][..cx], t[cy][cx..]] + t[cy + 1..]
  {
    SplitRows(rows[..n], t, cy, t[cy][..cx], t[cy][cx..]);
  }

  // Rows of a text whose lines at cy and cy + 1 became the one line x
  lemma JoinRows(rows: seq<Row>, t: seq<string>, cy: nat, x: string)
    requires cy + 1 < |t| && |rows| == |t| - 1
    requires forall r :: 0 <= r < cy ==> CString(rows[r]) == t[r]
    requires CString(rows[cy]) == x
    requires forall r :: cy < r < |rows| ==> CString(rows[r]) == t[r + 1]
    ensures Strings(rows) == t[..cy] + [x] + t[cy + 2..]
  {
  }

  // Rows of a text whose line at cy is gone
  lemma DropRows(rows: seq<Row>, t: seq<string>, cy: nat)
    requires cy < |t| && |rows| == |t| - 1
    requires forall r :: 0 <= r < cy ==> CString(rows[r]) == t[r]
    requires forall r :: cy <= r < |rows| ==> CString(rows[r]) == t[r + 1]
    ensures Strings(rows) == DropAt(t, cy)
  {
  }
}
