/**
 The login system's loops and its static user table (kernel/login.c), and the installer's passwd text
 (kernel/installer.c:104-119, 370-379).
 */
module Login {
  import opened Word32
  import opened Tokens
  import opened PasswdModel

  // hash_pass, hash_str
  method HashPass(s: string) returns (h: nat)
    ensures h == Hash(s)
  {
    h := 5381;
    var i := 0;
    assert s[0..] == s;
    while i < |s|
      invariant 0 <= i <= |s| && HashFrom(h, s[i..]) == Hash(s)
    {
      assert s[i..][0] == s[i] && s[i..][1..] == s[i + 1..];
      h := (h * 33 + ByteOf(s[i])) % WORD;
      i := i + 1;
    }
  }

  function Reversed(s: string): string {
    if |s| == 0 then "" else Reversed(s[1..]) + [s[0]]
  }

  lemma {:induction false} ReversedAppend(s: string, c: char)
    ensures Reversed(s + [c]) == [c] + Reversed(s)
  {
    if |s| == 0 {
      assert s + [c] == [c] && [c][1..] == [];
    } else {
      assert (s + [c])[1..] == s[1..] + [c];
      ReversedAppend(s[1..], c);
    }
  }

  // itoa_u, u32toa: digits from the last to the first, then turned round
  method ItoaU(v: nat) returns (b: string)
    ensures b == Decimal(v)
  {
    if v == 0 { return "0"; }
    var tmp := "";
    var u := v;
    while u > 0
      invariant u >= 0
      invariant u > 0 ==> Decimal(u) + Reversed(tmp) == Decimal(v)
      invariant u == 0 ==> Reversed(tmp) == Decimal(v)
    {
      ReversedAppend(tmp, Digit(u % 10));
      assert Decimal(u) + Reversed(tmp) == (if u < 10 then "" else Decimal(u / 10)) + ([Digit(u % 10)] + Reversed(tmp));
      tmp := tmp + [Digit(u % 10)];
      u := u / 10;
    }
    b := "";
    var i := |tmp|;
    assert tmp[..i] == tmp;
    while i > 0
      invariant 0 <= i <= |tmp| && b + Reversed(tmp[..i]) == Reversed(tmp)
    {
      assert tmp[..i] == tmp[..i - 1] + [tmp[i - 1]];
      ReversedAppend(tmp[..i - 1], tmp[i - 1]);
      i := i - 1;
      b := b + [tmp[i]];
    }
    assert tmp[..0] == "";
  }

  // (uint32_t)atoi(s)
  method AtoiU(s: string) returns (r: int)
    ensures r == Atoi(s)
  {
    var i := 0;
    assert s[0..] == s;
    while i < |s| && s[i] == ' '
      invariant 0 <= i <= |s| && SkipSpaces(s[i..]) == SkipSpaces(s)
    {
      assert s[i..][1..] == s[i + 1..];
      i := i + 1;
    }
    var negative := false;
    if i < |s| && s[i] == '-' {
      negative := true;
      i := i + 1;
    } else if i < |s| && s[i] == '+' {
      i := i + 1;
    }
    r := 0;
    ghost var t := s[i..];
    while i < |s| && IsDigit(s[i])
      invariant 0 <= i <= |s| && DigitsFrom(r, s[i..]) == DigitsFrom(0, t)
    {
      assert s[i..][0] == s[i] && s[i..][1..] == s[i + 1..];
      r := (r * 10 + (s[i] as int - '0' as int)) % WORD;
      i := i + 1;
    }
    if negative { r := (WORD - r) % WORD; }
  }

  class UserTable {
    const users: array<Entry>
    var nusers: nat

    ghost predicate Valid()
      reads this
    {
      users.Length == MAX_USERS && nusers <= MAX_USERS
    }

    constructor ()
      ensures Valid() && nusers == 0 && fresh(users)
    {
      users := new Entry[MAX_USERS](_ => Entry("", "", ""));
      nusers := 0;
    }

    // parse_passwd
    method Parse(buf: string) returns (n: nat)
      requires Valid() && NUL !in buf
      modifies this, users
      ensures Valid() && n == nusers && users[..nusers] == ParseText(buf, 8)
    {
      nusers := 0;
      var p := 0;
      ghost var done: seq<Entry>, ls := [], Lines(buf);
      assert buf[0..] == buf;
      while p < |buf| && nusers < MAX_USERS
        invariant 0 <= p <= |buf| && |done| == nusers <= MAX_USERS && users[..nusers] == done
        invariant ls == Lines(buf[p..]) && done + ParseLines(ls, MAX_USERS - nusers) == ParseText(buf, MAX_USERS)
        decreases |buf| - p
      {
        ghost var n := MAX_USERS - nusers;
        p := ParseOne(buf, p);
        Progress(done, ls, n);
        done, ls := users[..nusers], ls[1..];
      }
      return nusers;
    }

    // One round of the loop of parse_passwd
    method ParseOne(buf: string, p: nat) returns (q: nat)
      requires Valid() && nusers < MAX_USERS && p < |buf| && NUL !in buf
      modifies this, users
      ensures Valid() && p < q <= |buf| && buf[q..] == AfterLine(buf[p..])
      ensures var e := ParseLine(buf[p..][..LineLen(buf[p..], LINE_MAX)]);
        users[..nusers] == old(users[..nusers]) + if e.Some? then [e.value] else []
    {
      var line;
      line, q := ReadLine(buf, p);
      var ok, e := ParseFields(line);
      if ok { AddUser(e); }
    }

    method AddUser(e: Entry)
      requires Valid() && nusers < MAX_USERS
      modifies this, users
      ensures Valid() && nusers == old(nusers) + 1 && users[..nusers] == old(users[..nusers]) + [e]
    {
      users[nusers] := e;
      nusers := nusers + 1;
    }

    // The credential test: the first matching user, -1 if there is none
    method Check(name: string, password: string) returns (found: int)
      requires Valid()
      ensures FirstMatch(users[..nusers], name, password, found)
    {
      var ph := HashPass(password);
      var i := 0;
      while i < nusers
        invariant 0 <= i <= nusers && forall k :: 0 <= k < i ==> !Matches(users[k], name, password)
      {
        if users[i].name == name {
          var stored := AtoiU(users[i].pass);
          if stored == ph { return i; }
        }
        i := i + 1;
      }
      return -1;
    }
  }

  // One line of the parsing loop
  lemma Progress(done: seq<Entry>, ls: seq<string>, n: nat)
    requires |ls| > 0 && n > 0
    ensures var e := ParseLine(ls[0]);
      done + ParseLines(ls, n) ==
      if e.Some? then done + [e.value] + ParseLines(ls[1..], n - 1) else done + [] + ParseLines(ls[1..], n)
  {
    var e := ParseLine(ls[0]);
    if e.Some? {
      assert done + ([e.value] + ParseLines(ls[1..], n - 1)) == done + [e.value] + ParseLines(ls[1..], n - 1);
    } else {
      assert done + [] == done;
    }
  }

  // One line of at most 127 characters, and where the next one starts
  method ReadLine(buf: string, p: nat) returns (line: string, q: nat)
    requires p < |buf|
    ensures p < q <= |buf|
    ensures line == buf[p..][..LineLen(buf[p..], LINE_MAX)] && buf[q..] == AfterLine(buf[p..])
  {
    q := p;
    ghost var s := buf[p..];
    ghost var k := LineLen(s, LINE_MAX);
    while q < |buf| && buf[q] != '\n' && q - p < LINE_MAX
      invariant p <= q <= p + k
    {
      assert s[q - p] == buf[q];
      q := q + 1;
    }
    assert q == p + k;
    line := buf[p..q];
    if q < |buf| && buf[q] == '\n' {
      assert s[k] == buf[q];
      q := q + 1;
    }
  }

  // The strtok calls on one line
  method ParseFields(line: string) returns (ok: bool, e: Entry)
    requires NUL !in line
    ensures ok == ParseLine(line).Some? && (ok ==> ParseLine(line) == Some(e))
  {
    e := Entry("", "", "");
    var t := new Tokenizer(line);
    var name, pass, home;
    ok, name := t.Next(':');
    if !ok { return; }
    e := e.(name := Fit(name, 31));
    ok, pass := t.Next(':');
    if !ok { return; }
    e := e.(pass := Fit(pass, 31));
    var more;
    more, home := t.Next(':');
    e := e.(home := if more then Fit(home, 63) else "/");
    ThreeFields(line, name, pass, if more then [home] + t.Rest(':') else []);
  }

  lemma ThreeFields(line: string, name: string, pass: string, more: seq<string>)
    requires Split(line, ':') == [name] + ([pass] + more)
    ensures ParseLine(line) == Some(Entry(Fit(name, 31), Fit(pass, 31), if more == [] then "/" else Fit(more[0], 63)))
  {
  }

  // The name that one round of screen_user leaves, and whether it goes on with it; escaped is the ESC key
  method ScreenUser(field: string, escaped: bool) returns (ok: bool, name: string)
    requires |field| <= 29
    ensures name == if escaped || field == "" then "stella" else field
    ensures ok <==> forall i :: 0 <= i < |name| ==>
      'a' <= name[i] <= 'z' || '0' <= name[i] <= '9' || name[i] == '_'
    ensures ok <==> ScreenName(name)
  {
    name := field;
    if escaped { name := "stella"; }
    if |name| == 0 { name := "stella"; }
    var i := 0;
    while i < |name|
      invariant 0 <= i <= |name| && forall k :: 0 <= k < i ==> NameChar(name[k])
    {
      var c := name[i];
      if !('a' <= c <= 'z' || '0' <= c <= '9' || c == '_') {
        assert c in name;
        return false, name;
      }
      i := i + 1;
    }
    ok := true;
  }

  // The passwd buffer of screen_installing
  method InstallerText(user: string, secret: string) returns (pbuf: string)
    ensures pbuf == PrintText(InstallerEntries(user, secret))
  {
    var h := HashPass("toor");
    var h1 := ItoaU(h);
    h := HashPass(secret);
    var h2 := ItoaU(h);
    pbuf := "";
    pbuf := pbuf + "root:";
    pbuf := pbuf + h1;
    pbuf := pbuf + ":/\n";
    RootLine(pbuf, h1);
    ghost var root := pbuf;
    pbuf := pbuf + user;
    pbuf := pbuf + ":";
    pbuf := pbuf + h2;
    pbuf := pbuf + ":/home/";
    pbuf := pbuf + user;
    pbuf := pbuf + "\n";
    UserLine(root, user, h2);
    ghost var es := InstallerEntries(user, secret);
    assert es[1..] == [es[1]] && [es[1]][1..] == [];
    assert PrintText([es[1]]) == PrintEntry(es[1]);
  }

  // The passwd buffer of create_default_passwd
  method DefaultText() returns (buf: string)
    ensures buf == PrintText(DefaultEntries)
  {
    var h := HashPass("toor");
    var h1 := ItoaU(h);
    buf := "root:" + h1 + ":/\n";
    RootLine(buf, h1);
    ghost var root := buf;
    h := HashPass("1234");
    var h2 := ItoaU(h);
    buf := buf + ("stella:" + h2 + ":/home/stella\n");
    DefaultLine(h2);
    ghost var es := DefaultEntries;
    assert es[1..] == [es[1]] && [es[1]][1..] == [];
    assert PrintText([es[1]]) == PrintEntry(es[1]);
  }

  lemma DefaultLine(h: string)
    ensures "stella:" + h + ":/home/stella\n" == PrintEntry(Entry("stella", h, "/home/stella"))
  {
    var a, b := "stella:" + h + ":/home/stella\n", PrintEntry(Entry("stella", h, "/home/stella"));
    assert "stella:" == "stella" + ":" && ":/home/stella\n" == ":" + "/home/stella" + "\n";
    assert a == b;
  }

  lemma RootLine(line: string, h: string)
    requires line == "root:" + h + ":/\n"
    ensures line == PrintEntry(Entry("root", h, "/"))
  {
  }

  lemma UserLine(root: string, user: string, h: string)
    ensures root + user + ":" + h + ":/home/" + user + "\n" == root + PrintEntry(Entry(user, h, "/home/" + user))
  {
    var line := user + ":" + h + ":/home/" + user + "\n";
    assert line == PrintEntry(Entry(user, h, "/home/" + user));
    assert root + line == root + user + ":" + h + ":/home/" + user + "\n";
  }
}
