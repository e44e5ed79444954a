/**
 The passwd file (kernel/login.c, kernel/installer.c): hashes, decimal numbers and lines of the form
 `name:hash:home`.
 */
module PasswdModel {
  import opened Word32
  import opened Tokens

  const MAX_USERS: nat := 8
  const LINE_MAX: nat := 127

  // ----- Hash and decimal -----

  // (uint8_t)c
  function ByteOf(c: char): nat { c as int % 256 }

  // djb2, continued from h
  function HashFrom(h: nat, s: string): nat
    decreases |s|
  {
    if |s| == 0 then h else HashFrom((h * 33 + ByteOf(s[0])) % WORD, s[1..])
  }

  function Hash(s: string): nat { HashFrom(5381, s) }

  lemma {:induction false} HashRange(h: nat, s: string)
    requires 0 <= h < WORD
    ensures 0 <= HashFrom(h, s) < WORD
    decreases |s|
  {
    if |s| > 0 {
      HashRange((h * 33 + ByteOf(s[0])) % WORD, s[1..]);
    }
  }

  function Digit(d: nat): char
    requires d < 10
  {
    '0' + d as char
  }

  predicate IsDigit(c: char) { '0' <= c <= '9' }

  // Decimal digits, most significant first
  function Decimal(v: nat): (s: string)
    ensures |s| > 0 && forall c :: c in s ==> IsDigit(c)
  {
    if v < 10 then [Digit(v)] else Decimal(v / 10) + [Digit(v % 10)]
  }

  // The digit loop of atoi in 32-bit arithmetic
  function DigitsFrom(r: int, s: string): int
    decreases |s|
  {
    if |s| == 0 || !IsDigit(s[0]) then r
    else DigitsFrom((r * 10 + (s[0] as int - '0' as int)) % WORD, s[1..])
  }

  lemma {:induction false} DigitsAppend(r: int, s: string, c: char)
    requires (forall x :: x in s ==> IsDigit(x)) && IsDigit(c)
    ensures DigitsFrom(r, s + [c]) == (DigitsFrom(r, s) * 10 + (c as int - '0' as int)) % WORD
    decreases |s|
  {
    if |s| > 0 {
      assert (s + [c])[1..] == s[1..] + [c];
      DigitsAppend((r * 10 + (s[0] as int - '0' as int)) % WORD, s[1..], c);
    } else {
      assert s + [c] == [c];
      assert [c][1..] == [];
    }
  }

  /** Reading a printed number gives the number, modulo 2^32. */
  lemma {:induction false} DecimalRoundTrip(v: nat)
    ensures DigitsFrom(0, Decimal(v)) == v % WORD
    decreases v
  {
    if v < 10 {
      assert Decimal(v)[1..] == [];
    } else {
      DecimalRoundTrip(v / 10);
      DigitsAppend(0, Decimal(v / 10), Digit(v % 10));
      WrapStep(v / 10, v % 10);
    }
  }

  lemma WrapStep(q: nat, d: nat)
    ensures (q % WORD * 10 + d) % WORD == (q * 10 + d) % WORD
  {
    var k := q / WORD;
    assert q == k * WORD + q % WORD;
    WrapMultiple(q % WORD * 10 + d, k * 10);
  }

  lemma {:induction false} WrapMultiple(x: nat, k: nat)
    ensures (x + k * WORD) % WORD == x % WORD
    decreases k
  {
    if k > 0 {
      WrapMultiple(x, k - 1);
      assert x + k * WORD == (x + (k - 1) * WORD) + WORD;
    }
  }

  // ----- What the hash is -----

  function Power(base: nat, n: nat): nat { if n == 0 then 1 else base * Power(base, n - 1) }

  // The sum of s[i] * 33^(|s| - 1 - i)
  function Weighted(s: string): nat {
    if |s| == 0 then 0 else (s[0] as int % 256) * Power(33, |s| - 1) + Weighted(s[1..])
  }

  lemma WrapProduct(x: nat, p: nat, q: nat)
    ensures (x % WORD * p + q) % WORD == (x * p + q) % WORD
  {
    var k := x / WORD;
    assert x == k * WORD + x % WORD;
    Distribute(k, x % WORD, p, q);
    WrapMultiple(x % WORD * p + q, k * p);
  }

  lemma Distribute(k: nat, r: nat, p: nat, q: nat)
    ensures (k * WORD + r) * p + q == (r * p + q) + (k * p) * WORD
  {
  }

  lemma {:induction false} HashFromIs(h: nat, s: string)
    ensures |s| > 0 || h < WORD ==> HashFrom(h, s) == (h * Power(33, |s|) + Weighted(s)) % WORD
    decreases |s|
  {
    if |s| > 0 {
      var b, p := s[0] as int % 256, Power(33, |s| - 1);
      HashFromIs((h * 33 + b) % WORD, s[1..]);
      WrapProduct(h * 33 + b, p, Weighted(s[1..]));
      Regroup(h, b, p, Weighted(s[1..]));
    }
  }

  lemma Regroup(h: nat, b: nat, p: nat, w: nat)
    ensures (h * 33 + b) * p + w == h * (33 * p) + (b * p + w)
  {
  }

  /** hash_pass is the polynomial 5381 * 33^n + s[0] * 33^(n-1) + ... + s[n-1] of the bytes, modulo
      2^32. */
  lemma HashIs(s: string)
    ensures Hash(s) == (5381 * Power(33, |s|) + Weighted(s)) % 0x1_0000_0000
  {
    HashFromIs(5381, s);
  }

  // 33 has an inverse modulo 2^32, so a step loses nothing of the hash so far.
  lemma StepKeeps(a: nat, c: nat, b: nat)
    requires a < WORD && c < WORD && (a * 33 + b) % WORD == (c * 33 + b) % WORD
    ensures a == c
  {
    var m := (a * 33 + b) / WORD - (c * 33 + b) / WORD;
    assert 33 * (a - c) == m * WORD;
    assert 33 * 1041204193 == 8 * WORD + 1;
    assert a - c == WORD * (1041204193 * m - 8 * (a - c));
  }

  lemma ByteKeeps(h: nat, b: nat, c: nat)
    requires b < 256 && c < 256 && (h * 33 + b) % WORD == (h * 33 + c) % WORD
    ensures b == c
  {
    var m := (h * 33 + b) / WORD - (h * 33 + c) / WORD;
    assert b - c == m * WORD;
  }

  lemma {:induction false} SameEnd(g: nat, h: nat, s: string)
    requires g < WORD && h < WORD && g != h
    ensures HashFrom(g, s) != HashFrom(h, s)
    decreases |s|
  {
    if |s| > 0 {
      var b := ByteOf(s[0]);
      if (g * 33 + b) % WORD == (h * 33 + b) % WORD { StepKeeps(g, h, b); }
      SameEnd((g * 33 + b) % WORD, (h * 33 + b) % WORD, s[1..]);
    }
  }

  // Two strings of one length that differ in one character, as bytes
  predicate DifferAt(s: string, t: string, i: nat) {
    && |s| == |t| && i < |s| && s[i] as int % 256 != t[i] as int % 256
    && forall k :: 0 <= k < |s| && k != i ==> s[k] == t[k]
  }

  ghost predicate OneOff(s: string, t: string) { exists i: nat :: DifferAt(s, t, i) }

  lemma {:induction false} DifferentFrom(h: nat, s: string, t: string, i: nat)
    requires h < WORD && DifferAt(s, t, i)
    ensures HashFrom(h, s) != HashFrom(h, t)
    decreases |s|
  {
    var a, b := (h * 33 + ByteOf(s[0])) % WORD, (h * 33 + ByteOf(t[0])) % WORD;
    if i == 0 {
      assert s[1..] == t[1..];
      if a == b { ByteKeeps(h, ByteOf(s[0]), ByteOf(t[0])); }
      SameEnd(a, b, s[1..]);
    } else {
      assert DifferAt(s[1..], t[1..], i - 1);
      DifferentFrom(a, s[1..], t[1..], i - 1);
    }
  }

  /** A password with one wrong character has another hash. */
  lemma OneOffHash(s: string, t: string)
    requires OneOff(s, t)
    ensures Hash(s) != Hash(t)
  {
    var i: nat :| DifferAt(s, t, i);
    DifferentFrom(5381, s, t, i);
  }

  // ----- Lines -----

  datatype Entry = Entry(name: string, pass: string, home: string)

  // strncpy into a zeroed field of n + 1 characters
  function Fit(s: string, n: nat): string {
    if |s| <= n then s else s[..n]
  }

  // Characters up to a newline, the end of the text, or 127
  function LineLen(s: string, max: nat): (k: nat)
    ensures k <= |s| && k <= max && '\n' !in s[..k]
    ensures k < |s| && k < max ==> s[k] == '\n'
  {
    if |s| == 0 || s[0] == '\n' || max == 0 then 0
    else
      var k := LineLen(s[1..], max - 1) + 1;
      assert s[..k] == [s[0]] + s[1..][..k - 1];
      k
  }

  // The text after the line and its newline
  function AfterLine(s: string): (r: string)
    ensures |s| > 0 ==> |r| < |s|
  {
    var k := LineLen(s, LINE_MAX);
    if k < |s| && s[k] == '\n' then s[k + 1..] else s[k..]
  }

  datatype Option<T> = None | Some(value: T)

  // A line with at least two fields
  function ParseLine(line: string): Option<Entry> {
    var t := Split(line, ':');
    if |t| < 2 then None
    else Some(Entry(Fit(t[0], 31), Fit(t[1], 31), if |t| < 3 then "/" else Fit(t[2], 63)))
  }

  // The lines of a text
  function Lines(s: string): (ls: seq<string>)
    decreases |s|
  {
    if |s| == 0 then [] else [s[..LineLen(s, LINE_MAX)]] + Lines(AfterLine(s))
  }

  // parse_passwd on lines, with room for n more users
  function ParseLines(ls: seq<string>, n: nat): seq<Entry>
    decreases |ls|
  {
    if |ls| == 0 || n == 0 then []
    else if ParseLine(ls[0]).Some? then [ParseLine(ls[0]).value] + ParseLines(ls[1..], n - 1)
    else ParseLines(ls[1..], n)
  }

  function ParseText(s: string, n: nat): seq<Entry> { ParseLines(Lines(s), n) }

  function PrintEntry(e: Entry): string {
    e.name + ":" + e.pass + ":" + e.home + "\n"
  }

  function PrintText(es: seq<Entry>): string {
    if |es| == 0 then "" else PrintEntry(es[0]) + PrintText(es[1..])
  }

  predicate GoodField(s: string, max: nat) { Piece(s, ':') && '\n' !in s && |s| <= max }

  predicate GoodEntry(e: Entry) { GoodField(e.name, 31) && GoodField(e.pass, 31) && GoodField(e.home, 63) }

  lemma LineLenIs(s: string, max: nat, k: nat)
    requires k <= |s| && k <= max && '\n' !in s[..k] && (k < |s| && k < max ==> s[k] == '\n')
    ensures LineLen(s, max) == k
  {
    assert LineLen(s, max) == k;
  }

  lemma SplitThree(a: string, b: string, c: string, d: char)
    requires Piece(a, d) && Piece(b, d) && Piece(c, d)
    ensures Split(a + [d] + b + [d] + c, d) == [a, b, c]
  {
    var names := [a, b, c];
    RenderedThree(a, b, c, d);
    SplitRendered(names, d);
    var r := [d] + (a + [d] + b + [d] + c);
    SplitSkips(r, d);
    assert r[1..] == a + [d] + b + [d] + c;
  }

  lemma RenderedThree(a: string, b: string, c: string, d: char)
    ensures Rendered([a, b, c], d) == [d] + (a + [d] + b + [d] + c)
  {
    var names := [a, b, c];
    assert names[1..] == [b, c] && [b, c][1..] == [c] && [c][1..] == [];
    assert Rendered([c], d) == [d] + c;
    assert Rendered([b, c], d) == [d] + b + ([d] + c);
    assert Rendered(names, d) == [d] + a + ([d] + b + ([d] + c));
    assert [d] + a + ([d] + b + ([d] + c)) == [d] + (a + [d] + b + [d] + c);
  }

  // The line of an entry, without its newline
  function LineOf(e: Entry): string { e.name + ":" + e.pass + ":" + e.home }

  lemma LinesOfEntry(e: Entry, rest: string)
    requires GoodEntry(e)
    ensures Lines(PrintEntry(e) + rest) == [LineOf(e)] + Lines(rest)
  {
    var line, s := LineOf(e), PrintEntry(e) + rest;
    var k := |line|;
    assert s[..k] == line && s[k] == '\n' && s[k + 1..] == rest;
    LineLenIs(s, LINE_MAX, k);
  }

  lemma ParseLineOf(e: Entry)
    requires GoodEntry(e)
    ensures ParseLine(LineOf(e)) == Some(e)
  {
    SplitThree(e.name, e.pass, e.home, ':');
  }

  lemma {:induction false} LinesOfPrinted(es: seq<Entry>)
    requires forall i :: 0 <= i < |es| ==> GoodEntry(es[i])
    ensures |Lines(PrintText(es))| == |es| && forall i :: 0 <= i < |es| ==> Lines(PrintText(es))[i] == LineOf(es[i])
  {
    if |es| > 0 {
      LinesOfEntry(es[0], PrintText(es[1..]));
      LinesOfPrinted(es[1..]);
    }
  }

  lemma {:induction false} ParseGoodLines(ls: seq<string>, es: seq<Entry>, n: nat)
    requires |ls| == |es| <= n && forall i :: 0 <= i < |es| ==> GoodEntry(es[i]) && ls[i] == LineOf(es[i])
    ensures ParseLines(ls, n) == es
  {
    if |es| > 0 {
      ParseLineOf(es[0]);
      ParseGoodLines(ls[1..], es[1..], n - 1);
      assert [es[0]] + es[1..] == es;
    }
  }

  /** Up to eight printed entries are read back exactly. */
  lemma PasswdRoundTrip(es: seq<Entry>, n: nat)
    requires |es| <= n && forall i :: 0 <= i < |es| ==> GoodEntry(es[i])
    ensures ParseText(PrintText(es), n) == es
  {
    LinesOfPrinted(es);
    ParseGoodLines(Lines(PrintText(es)), es, n);
  }

  /** What a line of one, two or three fields gives: nothing, a user with the home "/", or all three,
      cut at 31, 31 and 63 characters. */
  lemma FieldsRead(a: string, b: string, c: string)
    requires Piece(a, ':') && Piece(b, ':') && Piece(c, ':')
    ensures ParseLine(a) == None
    ensures var name, pass, home := if |a| > 31 then a[..31] else a, if |b| > 31 then b[..31] else b,
                                    if |c| > 63 then c[..63] else c;
      && ParseLine(a + ":" + b) == Some(Entry(name, pass, "/"))
      && ParseLine(a + ":" + b + ":" + c) == Some(Entry(name, pass, home))
  {
    SplitPiece(a, ':');
    SplitPiece(b, ':');
    SplitPiece(c, ':');
    SplitAround(a, b, ':');
    SplitAround(a + ":" + b, c, ':');
  }

  lemma TakeMore(es: seq<Entry>, n: nat)
    requires |es| > 0 && n > 0
    ensures [es[0]] + (if |es| - 1 <= n - 1 then es[1..] else es[1..][..n - 1]) == if |es| <= n then es else es[..n]
  {
  }

  lemma {:induction false} ParseFirst(ls: seq<string>, es: seq<Entry>, n: nat)
    requires |ls| == |es| && forall i :: 0 <= i < |es| ==> GoodEntry(es[i]) && ls[i] == LineOf(es[i])
    ensures ParseLines(ls, n) == if |es| <= n then es else es[..n]
  {
    if |es| > 0 && n > 0 {
      ParseLineOf(es[0]);
      ParseFirst(ls[1..], es[1..], n - 1);
      TakeMore(es, n);
    }
  }

  /** Of a longer file the first n users are kept. */
  lemma FirstUsers(es: seq<Entry>, n: nat)
    requires forall i :: 0 <= i < |es| ==> GoodEntry(es[i])
    ensures ParseText(PrintText(es), n) == if |es| <= n then es else es[..n]
  {
    LinesOfPrinted(es);
    ParseFirst(Lines(PrintText(es)), es, n);
  }

  /** A line is cut after 127 characters, and the rest is a line of its own. */
  lemma LongLine(s: string, rest: string)
    requires |s| == 127 && '\n' !in s && (rest == "" || rest[0] != '\n')
    ensures Lines(s + rest) == [s] + Lines(rest)
  {
    LineLenIs(s + rest, LINE_MAX, 127);
    assert (s + rest)[..127] == s && (s + rest)[127..] == rest;
  }

  // ----- Logging in -----

  // (uint32_t)atoi(s)
  function Atoi(s: string): int {
    var t := SkipSpaces(s);
    if |t| > 0 && t[0] == '-' then (WORD - DigitsFrom(0, t[1..])) % WORD
    else if |t| > 0 && t[0] == '+' then DigitsFrom(0, t[1..])
    else DigitsFrom(0, t)
  }

  function SkipSpaces(s: string): (t: string)
    ensures |t| > 0 ==> t[0] != ' '
  {
    if |s| > 0 && s[0] == ' ' then SkipSpaces(s[1..]) else s
  }

  lemma {:induction false} DigitsStop(r: int, s: string, rest: string)
    requires (forall c :: c in s ==> IsDigit(c)) && (rest == "" || !IsDigit(rest[0]))
    ensures DigitsFrom(r, s + rest) == DigitsFrom(r, s)
    decreases |s|
  {
    if |s| == 0 {
      assert s + rest == rest;
    } else {
      assert (s + rest)[1..] == s[1..] + rest;
      DigitsStop((r * 10 + (s[0] as int - '0' as int)) % WORD, s[1..], rest);
    }
  }

  /** atoi reads a decimal up to the first other character, after blanks and one sign, modulo 2^32. */
  lemma AtoiReads(v: nat, rest: string)
    requires rest == "" || !IsDigit(rest[0])
    ensures Atoi(Decimal(v) + rest) == Atoi("+" + (Decimal(v) + rest)) == v % 0x1_0000_0000
    ensures Atoi("-" + (Decimal(v) + rest)) == (0x1_0000_0000 - v % 0x1_0000_0000) % 0x1_0000_0000
  {
    var s := Decimal(v) + rest;
    assert Decimal(v)[0] in Decimal(v);
    assert s[0] == Decimal(v)[0];
    assert ("+" + s)[1..] == s && ("-" + s)[1..] == s;
    DigitsStop(0, Decimal(v), rest);
    DecimalRoundTrip(v);
  }

  lemma AtoiBlank(s: string)
    ensures Atoi(" " + s) == Atoi(s)
  {
    assert (" " + s)[1..] == s;
  }

  // The credential test of login_screen for one user
  predicate Matches(e: Entry, name: string, password: string) {
    e.name == name && Atoi(e.pass) == Hash(password)
  }

  // An entry as create_default_passwd and the installer write it
  function MakeEntry(name: string, password: string, home: string): Entry {
    Entry(name, Decimal(Hash(password)), home)
  }

  lemma HashIsWord(s: string)
    ensures 0 <= Hash(s) < WORD
  {
    HashRange(5381, s);
  }

  /** The stored decimal is read back as the hash itself, so the login test compares hashes. */
  lemma AtoiOfHash(password: string)
    ensures Atoi(Decimal(Hash(password))) == Hash(password)
  {
    HashIsWord(password);
    AtoiDecimal(Hash(password));
  }

  lemma AtoiDecimal(v: nat)
    requires v < WORD
    ensures Atoi(Decimal(v)) == v
  {
    AtoiDigits(Decimal(v));
    DecimalRoundTrip(v);
  }

  lemma AtoiDigits(s: string)
    requires |s| > 0 && forall c :: c in s ==> IsDigit(c)
    ensures Atoi(s) == DigitsFrom(0, s)
  {
    assert s[0] in s;
    assert SkipSpaces(s) == s;
  }

  /** A login succeeds for exactly those name and password pairs whose name has an entry with the
      same password hash. */
  lemma LoginExact(made: Entry, name: string, password: string, user: string, secret: string, home: string)
    requires made == MakeEntry(user, secret, home)
    ensures Matches(made, name, password) <==> name == user && Hash(password) == Hash(secret)
  {
    AtoiOfHash(secret);
  }

  // ----- The text the installer and the kernel write -----

  function Pow10(k: nat): nat { if k == 0 then 1 else 10 * Pow10(k - 1) }

  lemma {:induction false} DecimalLen(v: nat, k: nat)
    requires v < Pow10(k + 1)
    ensures |Decimal(v)| <= k + 1
  {
    if v >= 10 {
      DecimalLen(v / 10, k - 1);
    }
  }

  lemma MadeGood(name: string, password: string, home: string)
    requires GoodField(name, 31) && GoodField(home, 63)
    ensures GoodEntry(MakeEntry(name, password, home))
  {
    HashIsWord(password);
    assert Pow10(10) == 10000000000 by {
      assert Pow10(5) == 100000;
    }
    DecimalLen(Hash(password), 9);
    assert forall c :: c in Decimal(Hash(password)) ==> IsDigit(c);
  }

  function InstallerEntries(user: string, secret: string): seq<Entry> {
    [MakeEntry("root", "toor", "/"), MakeEntry(user, secret, "/home/" + user)]
  }

  const DefaultEntries: seq<Entry> :=
    [MakeEntry("root", "toor", "/"), MakeEntry("stella", "1234", "/home/stella")]

  /** The text for a user name is read back as its two users exactly when the name is not empty and has
      no colon. */
  lemma InstallerRoundTrip(user: string, secret: string)
    requires '\n' !in user && |user| <= 31
    ensures ParseText(PrintText(InstallerEntries(user, secret)), MAX_USERS) == InstallerEntries(user, secret)
            <==> Piece(user, ':')
  {
    var es := InstallerEntries(user, secret);
    if Piece(user, ':') {
      MadeGood("root", "toor", "/");
      MadeGood(user, secret, "/home/" + user);
      PasswdRoundTrip(es, MAX_USERS);
    } else {
      ParsedNames(Lines(PrintText(es)), MAX_USERS);
    }
  }

  // No parsed name is empty or has a colon.
  lemma {:induction false} ParsedNames(ls: seq<string>, n: nat)
    ensures forall i :: 0 <= i < |ParseLines(ls, n)| ==> Piece(ParseLines(ls, n)[i].name, ':')
    decreases |ls|
  {
    if |ls| > 0 && n > 0 {
      if ParseLine(ls[0]).Some? {
        ParsedNames(ls[1..], n - 1);
        ParsedName(ls[0]);
      } else {
        ParsedNames(ls[1..], n);
      }
    }
  }

  lemma ParsedName(line: string)
    requires ParseLine(line).Some?
    ensures Piece(ParseLine(line).value.name, ':')
  {
    SplitPieces(line, ':');
    var t := Split(line, ':')[0];
    assert Piece(t, ':') && (forall c :: c in Fit(t, 31) ==> c in t);
  }

  /** The text of two entries, character by character. */
  lemma TwoPrinted(a: Entry, b: Entry)
    ensures PrintText([a, b]) ==
            a.name + ":" + a.pass + ":" + a.home + "\n" + (b.name + ":" + b.pass + ":" + b.home + "\n")
  {
    assert [a, b][1..] == [b] && [b][1..] == [];
    assert PrintText([b]) == PrintEntry(b);
  }

  lemma DefaultRoundTrip()
    ensures ParseText(PrintText(DefaultEntries), MAX_USERS) == DefaultEntries
  {
    MadeGood("root", "toor", "/");
    MadeGood("stella", "1234", "/home/stella");
    PasswdRoundTrip(DefaultEntries, MAX_USERS);
  }

  // ----- Who can log in -----

  datatype Account = Account(name: string, password: string, home: string)

  predicate Usable(a: Account) { GoodField(a.name, 31) && GoodField(a.home, 63) }

  // The entries written for a list of accounts
  function Made(accounts: seq<Account>): (es: seq<Entry>)
    ensures |es| == |accounts|
    ensures forall i :: 0 <= i < |es| ==> es[i] == MakeEntry(accounts[i].name, accounts[i].password, accounts[i].home)
  {
    seq(|accounts|, i requires 0 <= i < |accounts| =>
      MakeEntry(accounts[i].name, accounts[i].password, accounts[i].home))
  }

  predicate Opens(a: Account, name: string, password: string) {
    a.name == name && Hash(a.password) == Hash(password)
  }

  /** After the accounts are written and read back, entry i accepts a name and a password exactly when
      account i has that name and a password with the same hash. */
  lemma AccountLogins(accounts: seq<Account>, name: string, password: string)
    requires |accounts| <= MAX_USERS && forall i :: 0 <= i < |accounts| ==> Usable(accounts[i])
    ensures var users := ParseText(PrintText(Made(accounts)), MAX_USERS);
      && |users| == |accounts|
      && forall i :: 0 <= i < |users| ==> (Matches(users[i], name, password) <==> Opens(accounts[i], name, password))
  {
    var es := Made(accounts);
    forall i | 0 <= i < |es| ensures GoodEntry(es[i]) {
      MadeGood(accounts[i].name, accounts[i].password, accounts[i].home);
    }
    PasswdRoundTrip(es, MAX_USERS);
    forall i | 0 <= i < |es| ensures Matches(es[i], name, password) <==> Opens(accounts[i], name, password) {
      LoginExact(es[i], name, password, accounts[i].name, accounts[i].password, accounts[i].home);
    }
  }

  /** So the pairs that log in are those of the accounts, up to a password with the same hash. */
  lemma LoginsAre(accounts: seq<Account>, name: string, password: string)
    requires |accounts| <= MAX_USERS && forall i :: 0 <= i < |accounts| ==> Usable(accounts[i])
    ensures var users := ParseText(PrintText(Made(accounts)), MAX_USERS);
      (exists i :: 0 <= i < |users| && Matches(users[i], name, password)) <==>
      (exists i :: 0 <= i < |accounts| && Opens(accounts[i], name, password))
  {
    AccountLogins(accounts, name, password);
    var users := ParseText(PrintText(Made(accounts)), MAX_USERS);
    if i :| 0 <= i < |accounts| && Opens(accounts[i], name, password) {
      assert Matches(users[i], name, password);
    }
  }

  // The first entry, or the first account, that accepts the pair, or -1
  predicate FirstMatch(es: seq<Entry>, name: string, password: string, found: int) {
    && (found == -1 || (0 <= found < |es| && Matches(es[found], name, password)))
    && forall i :: 0 <= i < (if found == -1 then |es| else found) ==> !Matches(es[i], name, password)
  }

  predicate FirstOpened(accounts: seq<Account>, name: string, password: string, found: int) {
    && (found == -1 || (0 <= found < |accounts| && Opens(accounts[found], name, password)))
    && forall i :: 0 <= i < (if found == -1 then |accounts| else found) ==> !Opens(accounts[i], name, password)
  }

  lemma TwoMade(a: Account, b: Account)
    ensures Made([a, b]) == [MakeEntry(a.name, a.password, a.home), MakeEntry(b.name, b.password, b.home)]
  {
  }

  lemma TwoLogins(a: Account, b: Account, name: string, password: string)
    requires Usable(a) && Usable(b)
    ensures var users := ParseText(PrintText(Made([a, b])), MAX_USERS);
      (exists i :: 0 <= i < |users| && Matches(users[i], name, password)) <==>
      Opens(a, name, password) || Opens(b, name, password)
  {
    var both := [a, b];
    LoginsAre(both, name, password);
    assert both[0] == a && both[1] == b;
  }

  /** After an installation with a usable user name, exactly these name and password pairs log in:
      root with a password that hashes like "toor", and the user with one that hashes like theirs. */
  lemma InstalledLogins(user: string, secret: string, name: string, password: string)
    requires '\n' !in user && |user| <= 31 && Piece(user, ':')
    ensures var users := ParseText(PrintText(InstallerEntries(user, secret)), MAX_USERS);
      (exists i :: 0 <= i < |users| && Matches(users[i], name, password)) <==>
      (name == "root" && Hash(password) == Hash("toor")) || (name == user && Hash(password) == Hash(secret))
  {
    var root, own := Account("root", "toor", "/"), Account(user, secret, "/home/" + user);
    TwoLogins(root, own, name, password);
    TwoMade(root, own);
  }

  // ----- What the name screen of the installer lets through -----

  predicate NameChar(c: char) { 'a' <= c <= 'z' || '0' <= c <= '9' || c == '_' }

  predicate ScreenName(user: string) { 1 <= |user| <= 29 && forall c :: c in user ==> NameChar(c) }

  /** So the text of the installer always parses back to its two users. */
  lemma ScreenRoundTrip(user: string, secret: string)
    requires ScreenName(user)
    ensures ParseText(PrintText(InstallerEntries(user, secret)), MAX_USERS) == InstallerEntries(user, secret)
  {
    assert Piece(user, ':');
    InstallerRoundTrip(user, secret);
  }

  /** And exactly root with a password that hashes like "toor", and the user with one that hashes like
      theirs, log in. */
  lemma ScreenLogins(user: string, secret: string, name: string, password: string)
    requires ScreenName(user)
    ensures var users := ParseText(PrintText(InstallerEntries(user, secret)), MAX_USERS);
      (exists i :: 0 <= i < |users| && Matches(users[i], name, password)) <==>
      (name == "root" && Hash(password) == Hash("toor")) || (name == user && Hash(password) == Hash(secret))
  {
    assert Piece(user, ':');
    InstalledLogins(user, secret, name, password);
  }

  /** With the passwd file the kernel writes when there is none. */
  lemma DefaultLogins(name: string, password: string)
    ensures var users := ParseText(PrintText(DefaultEntries), MAX_USERS);
      (exists i :: 0 <= i < |users| && Matches(users[i], name, password)) <==>
      (name == "root" && Hash(password) == Hash("toor")) || (name == "stella" && Hash(password) == Hash("1234"))
  {
    InstalledLogins("stella", "1234", name, password);
    assert "/home/" + "stella" == "/home/stella";
  }
}
