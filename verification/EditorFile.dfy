/**
 Saving and loading the editor's text (shell/editor.c:148-197): lines to bytes and back.
 */
module EditorFile {
  import opened EditorModel
  import RamTree

  const DATA_MAX: nat := RamTree.DATA_MAX

  // The loop of ed_save: lines from the first on, each with its newline, while they fit
  function Serial(text: seq<string>, used: nat): (s: string)
    ensures used <= DATA_MAX - 2 ==> used + |s| <= DATA_MAX - 2
  {
    if |text| == 0 || used >= DATA_MAX - 2 || used + |text[0]| + 1 >= DATA_MAX - 1 then ""
    else text[0] + "\n" + Serial(text[1..], used + |text[0]| + 1)
  }

  predicate Ends(c: char) { c == '\n' || c == '\0' }

  // The pieces between line ends; one more than there are line ends
  function Fields(s: string): (f: seq<string>)
    ensures |f| >= 1
  {
    if |s| == 0 then [""]
    else if Ends(s[0]) then [""] + Fields(s[1..])
    else
      var f := Fields(s[1..]);
      [[s[0]] + f[0]] + f[1..]
  }

  function ClipLine(s: string): string {
    if |s| < LINE_LEN then s else s[..LINE_LEN - 1]
  }

  function ClipAll(f: seq<string>): (r: seq<string>)
    ensures |r| == |f| && forall i :: 0 <= i < |f| ==> r[i] == ClipLine(f[i])
  {
    seq(|f|, i requires 0 <= i < |f| => ClipLine(f[i]))
  }

  function Take<T>(f: seq<T>, n: nat): seq<T> {
    if |f| < n then f else f[..n]
  }

  // What ed_load puts into the buffer
  function Loaded(data: string): seq<string> {
    ClipAll(Take(Fields(data), MAX_LINES))
  }

  /** The whole text is saved exactly when it needs at most 4094 bytes. */
  lemma {:induction false} SerialWhole(text: seq<string>, used: nat)
    requires used <= DATA_MAX - 2
    ensures Serial(text, used) == Lead(text) <==> used + |Lead(text)| <= DATA_MAX - 2
  {
    if |text| > 0 && used < DATA_MAX - 2 && used + |text[0]| + 1 < DATA_MAX - 1 {
      SerialWhole(text[1..], used + |text[0]| + 1);
      var a, b := Serial(text[1..], used + |text[0]| + 1), Lead(text[1..]);
      var p := text[0] + "\n";
      assert (p + a)[|p|..] == a && (p + b)[|p|..] == b;
    }
  }

  lemma {:induction false} FieldsOfLine(line: string, rest: string)
    requires PlainLine(line) || (forall c :: c in line ==> !Ends(c))
    ensures Fields(line + "\n" + rest) == [line] + Fields(rest)
  {
    var s := line + "\n" + rest;
    if |line| == 0 {
      assert s[1..] == rest;
    } else {
      assert s[1..] == line[1..] + "\n" + rest;
      assert forall c :: c in line[1..] ==> c in line;
      FieldsOfLine(line[1..], rest);
      assert line == [line[0]] + line[1..];
      assert ([line[1..]] + Fields(rest))[1..] == Fields(rest);
    }
  }

  lemma {:induction false} FieldsOfLead(text: seq<string>)
    requires forall i :: 0 <= i < |text| ==> PlainLine(text[i])
    ensures Fields(Lead(text)) == text + [""]
  {
    if |text| > 0 {
      FieldsOfLead(text[1..]);
      FieldsOfLine(text[0], Lead(text[1..]));
      assert text == [text[0]] + text[1..];
    }
  }

  lemma ClipPlain(f: seq<string>)
    requires forall i :: 0 <= i < |f| ==> |f[i]| < LINE_LEN
    ensures ClipAll(f) == f
  {
  }

  /** Saving and loading gives back the lines and one empty line, cut to 64 lines. */
  lemma SaveThenLoad(text: seq<string>)
    requires forall i :: 0 <= i < |text| ==> PlainLine(text[i])
    requires |Lead(text)| <= DATA_MAX - 2
    ensures Loaded(Serial(text, 0)) == Take(text + [""], MAX_LINES)
  {
    SerialWhole(text, 0);
    FieldsOfLead(text);
    ClipPlain(Take(text + [""], MAX_LINES));
  }

  lemma {:induction false} LeadOfFields(s: string)
    requires '\0' !in s
    ensures Lead(Fields(s)) == s + "\n"
  {
    if |s| == 0 {
      assert [""][1..] == [];
    } else {
      LeadOfFields(s[1..]);
      var f := Fields(s[1..]);
      assert s == [s[0]] + s[1..];
      if Ends(s[0]) {
        assert ([""] + f)[1..] == f;
      } else {
        assert ([[s[0]] + f[0]] + f[1..])[1..] == f[1..];
        assert [s[0]] + f[0] + "\n" + Lead(f[1..]) == [s[0]] + (f[0] + "\n" + Lead(f[1..]));
      }
    }
  }

  function Newlines(s: string): nat {
    if |s| == 0 then 0 else Newlines(s[1..]) + if s[0] == '\n' then 1 else 0
  }

  lemma {:induction false} FieldsCount(s: string)
    requires '\0' !in s
    ensures |Fields(s)| == Newlines(s) + 1
  {
    if |s| > 0 {
      FieldsCount(s[1..]);
    }
  }

  // ----- What is lost on the way is missing in the length -----

  lemma {:induction false} SerialLen(text: seq<string>, used: nat)
    ensures |Serial(text, used)| <= |Lead(text)|
  {
    if |text| > 0 {
      SerialLen(text[1..], used + |text[0]| + 1);
    }
  }

  lemma {:induction false} ClipLen(f: seq<string>)
    ensures |Lead(ClipAll(f))| <= |Lead(f)|
    ensures |Lead(ClipAll(f))| == |Lead(f)| ==> forall i :: 0 <= i < |f| ==> |f[i]| < LINE_LEN
  {
    if |f| > 0 {
      assert ClipAll(f)[1..] == ClipAll(f[1..]);
      ClipLen(f[1..]);
      if |Lead(ClipAll(f))| == |Lead(f)| {
        assert forall i :: 1 <= i < |f| ==> f[i] == f[1..][i - 1];
      }
    }
  }

  lemma {:induction false} TakeLen(f: seq<string>, n: nat)
    ensures |Lead(Take(f, n))| <= |Lead(f)|
    ensures |Lead(Take(f, n))| == |Lead(f)| ==> |f| <= n
  {
    if |f| > n > 0 {
      assert Take(f, n)[1..] == Take(f[1..], n - 1);
      TakeLen(f[1..], n - 1);
    } else if |f| <= n {
      assert Take(f, n) == f;
    }
  }

  /** Loading a file and saving it appends one newline, exactly when the file has fewer than 64
      newlines, no line over 127 characters and at most 4093 bytes. */
  lemma LoadThenSave(data: string)
    requires '\0' !in data
    ensures Serial(Loaded(data), 0) == data + "\n" <==>
      && |data| <= DATA_MAX - 3 && Newlines(data) < MAX_LINES
      && forall i :: 0 <= i < |Fields(data)| ==> |Fields(data)[i]| < LINE_LEN
  {
    var f := Fields(data);
    var kept := Take(f, MAX_LINES);
    FieldsCount(data);
    LeadOfFields(data);
    if Serial(Loaded(data), 0) == data + "\n" {
      SerialLen(Loaded(data), 0);
      ClipLen(kept);
      TakeLen(f, MAX_LINES);
      assert kept == f;
    }
    if |data| <= DATA_MAX - 3 && |f| <= MAX_LINES && (forall i :: 0 <= i < |f| ==> |f[i]| < LINE_LEN) {
      assert kept == f;
      ClipPlain(f);
      SerialWhole(f, 0);
    }
  }

  // Fields of a string whose first field continues a piece already read
  function Glue(cur: string, f: seq<string>): seq<string>
    requires |f| >= 1
  {
    [cur + f[0]] + f[1..]
  }

  lemma GlueEnd(data: string, i: nat, cur: string)
    requires i < |data| && Ends(data[i])
    ensures Glue(cur, Fields(data[i..])) == [cur] + Glue("", Fields(data[i + 1..]))
  {
    assert data[i..][1..] == data[i + 1..];
    assert cur + "" == cur;
    var f := Fields(data[i + 1..]);
    assert "" + f[0] == f[0];
  }

  lemma GlueChar(data: string, i: nat, cur: string)
    requires i < |data| && !Ends(data[i])
    ensures Glue(cur, Fields(data[i..])) == Glue(cur + [data[i]], Fields(data[i + 1..]))
  {
    assert data[i..][1..] == data[i + 1..];
    var f := Fields(data[i + 1..]);
    assert cur + ([data[i]] + f[0]) == cur + [data[i]] + f[0];
  }

  lemma ClipGrow(cur: string, c: char)
    ensures ClipLine(cur + [c]) == if |ClipLine(cur)| < LINE_LEN - 1 then ClipLine(cur) + [c] else ClipLine(cur)
  {
  }

  lemma Appended(a: string, b: string, c: string, d: string)
    ensures a + (b + c + d) == a + b + c + d
  {
  }

  lemma SerialUnfold(t: seq<string>, used: nat)
    requires |t| > 0 && used < DATA_MAX - 2 && used + |t[0]| + 1 < DATA_MAX - 1
    ensures Serial(t, used) == t[0] + "\n" + Serial(t[1..], used + |t[0]| + 1)
  {
  }

  // One more line of the save loop
  lemma SerialMore(t: seq<string>, data: string)
    requires |t| > 0 && |data| < DATA_MAX - 2 && |data| + |t[0]| + 1 < DATA_MAX - 1
    ensures data + Serial(t, |data|) == data + t[0] + "\n" + Serial(t[1..], |data| + |t[0]| + 1)
  {
    SerialUnfold(t, |data|);
    Appended(data, t[0], "\n", Serial(t[1..], |data| + |t[0]| + 1));
  }

  lemma SerialNone(t: seq<string>, used: nat)
    requires |t| > 0 && used + |t[0]| + 1 >= DATA_MAX - 1
    ensures Serial(t, used) == ""
  {
  }

  lemma {:induction false} FieldsPlain(s: string)
    ensures forall i :: 0 <= i < |Fields(s)| ==> '\0' !in Fields(s)[i] && '\n' !in Fields(s)[i]
  {
    if |s| > 0 {
      FieldsPlain(s[1..]);
    }
  }

  lemma LoadedPlain(data: string)
    ensures 1 <= |Loaded(data)| <= MAX_LINES
    ensures forall i :: 0 <= i < |Loaded(data)| ==> PlainLine(Loaded(data)[i])
  {
    FieldsPlain(data);
    var f := Take(Fields(data), MAX_LINES);
    forall i | 0 <= i < |f| ensures PlainLine(ClipLine(f[i])) {
      assert f[i] == Fields(data)[i];
    }
  }

  // What the parsing loop has read: complete fields, then the current one
  ghost predicate Parsed(data: string, i: nat, done: seq<string>, cur: string) {
    if i <= |data| then Fields(data) == done + Glue(cur, Fields(data[i..])) else Fields(data) == done
  }

  lemma ParsedStart(data: string)
    ensures Parsed(data, 0, [], "")
  {
    var f := Fields(data);
    assert data[0..] == data && "" + f[0] == f[0];
  }

  lemma ParsedEnd(data: string, i: nat, done: seq<string>, cur: string)
    requires i <= |data| && Parsed(data, i, done, cur) && (i < |data| ==> Ends(data[i]))
    ensures Parsed(data, i + 1, done + [cur], "")
  {
    if i < |data| {
      GlueEnd(data, i, cur);
      JoinOne(done, cur, Glue("", Fields(data[i + 1..])));
    } else {
      assert data[i..] == "";
      assert cur + "" == cur && Glue(cur, [""]) == [cur];
    }
  }

  lemma JoinOne(done: seq<string>, cur: string, g: seq<string>)
    ensures done + ([cur] + g) == done + [cur] + g
  {
  }

  lemma ParsedChar(data: string, i: nat, done: seq<string>, cur: string)
    requires i < |data| && Parsed(data, i, done, cur) && !Ends(data[i])
    ensures Parsed(data, i + 1, done, cur + [data[i]])
  {
    GlueChar(data, i, cur);
  }

  lemma ParsedDone(data: string, i: nat, done: seq<string>, cur: string)
    requires i <= |data| + 1 && Parsed(data, i, done, cur)
    requires |done| == MAX_LINES || (i == |data| + 1 && |done| < MAX_LINES)
    ensures Loaded(data) == ClipAll(done) && |done| > 0
  {
    assert Take(Fields(data), MAX_LINES) == done;
  }

  // ----- What is cut -----

  /** A text that is too long is saved up to the last line that fits into 4094 bytes with the lines
      before it. */
  lemma {:induction false} SerialPrefix(text: seq<string>, used: nat) returns (k: nat)
    requires used <= 4094
    ensures k <= |text| && Serial(text, used) == Lead(text[..k]) && used + |Lead(text[..k])| <= 4094
    ensures k < |text| ==> used + |Lead(text[..k])| + |text[k]| + 1 > 4094
  {
    if |text| == 0 || used >= DATA_MAX - 2 || used + |text[0]| + 1 >= DATA_MAX - 1 {
      k := 0;
    } else {
      k := SerialPrefix(text[1..], used + |text[0]| + 1);
      assert text[..k + 1][1..] == text[1..][..k] && text[..k + 1][0] == text[0];
      k := k + 1;
    }
  }

  /** The lines of a file: a line feed or a NUL ends a line, and a text without them is one line. */
  lemma {:induction false} FieldsAround(a: string, c: char, b: string)
    requires c == '\n' || c == '\0'
    ensures Fields(a + [c] + b) == Fields(a) + Fields(b)
    decreases |a|
  {
    var s := a + [c] + b;
    if |a| == 0 {
      assert s[1..] == b && s[0] == c;
    } else {
      assert s[1..] == a[1..] + [c] + b && s[0] == a[0];
      FieldsAround(a[1..], c, b);
      FirstField(a[0], Fields(a[1..]), Fields(b));
    }
  }

  lemma FirstField(x: char, f: seq<string>, g: seq<string>)
    requires |f| > 0
    ensures [[x] + (f + g)[0]] + (f + g)[1..] == [[x] + f[0]] + f[1..] + g
    ensures [""] + (f + g) == [""] + f + g
  {
  }

  lemma {:induction false} OneField(a: string)
    requires '\n' !in a && '\0' !in a
    ensures Fields(a) == [a]
  {
    if |a| > 0 {
      OneField(a[1..]);
      assert a == [a[0]] + a[1..];
    }
  }

  /** ed_load keeps the first 64 of them, each up to its 127th character. */
  lemma LoadedLines(data: string)
    ensures |Loaded(data)| == if |Fields(data)| > 64 then 64 else |Fields(data)|
    ensures forall i :: 0 <= i < |Loaded(data)| ==>
      Loaded(data)[i] == var f := Fields(data)[i]; if |f| > 127 then f[..127] else f
  {
  }
}
