/**
 The login system on DiskFS: the passwd file as login_init finds or makes it (kernel/login.c:74-98) and
 as the installer writes it (kernel/installer.c:370-379).
 */
module LoginDisk {
  import opened Tokens
  import opened PasswdModel
  import opened Login
  import opened ByteStrings
  import DL = DiskLayout
  import DM = DiskModel
  import KernelDiskFS

  const PASSWD: string := "passwd"
  const BUF_MAX: nat := 511

  lemma PasswdName()
    ensures 0 !in ToBytes(PASSWD) && |ToBytes(PASSWD)| < DL.NAME_MAX
  {
    CharsOfBytes(PASSWD);
  }

  // ----- The file -----

  predicate HasText(files: map<seq<DL.Byte>, seq<DL.Byte>>) {
    ToBytes(PASSWD) in files && files[ToBytes(PASSWD)] != []
  }

  // The C string in the first 511 bytes
  function TextIn(bytes: seq<DL.Byte>): string { CString(ToChars(KernelDiskFS.Cut(bytes, BUF_MAX))) }

  // The file holds a text that is written as a whole.
  predicate HoldsText(files: map<seq<DL.Byte>, seq<DL.Byte>>, text: string) {
    ToBytes(PASSWD) in files && files[ToBytes(PASSWD)] == ToBytes(text)
  }

  lemma TextBack(text: string)
    requires CName(text) && |text| <= BUF_MAX
    ensures TextIn(ToBytes(text)) == text
  {
    CharsOfBytes(text);
    assert KernelDiskFS.Cut(ToBytes(text), BUF_MAX) == ToBytes(text);
    CStringIs(text, |text|);
  }

  // Of a longer file the first 511 bytes are read.
  lemma TextCut(bytes: seq<DL.Byte>)
    requires |bytes| > 511 && 0 !in bytes
    ensures TextIn(bytes) == ToChars(bytes[..511])
  {
    var s := ToChars(bytes[..511]);
    forall i | 0 <= i < 511 ensures s[i] != NUL {
      assert bytes[i] in bytes;
    }
    CStringIs(s, 511);
  }

  // ----- Texts of accounts -----

  predicate Storable(a: Account) { Usable(a) && CName(a.name) && CName(a.home) }

  lemma JoinNames(a: string, b: string)
    requires CName(a) && CName(b)
    ensures CName(a + b)
  {
  }

  lemma EntryNames(a: Account)
    requires Storable(a)
    ensures CName(PrintEntry(MakeEntry(a.name, a.password, a.home)))
  {
    var h := Decimal(Hash(a.password));
    forall i | 0 <= i < |h| ensures 0 < h[i] as int < 256 {
      assert h[i] in h;
    }
    JoinNames(a.name, ":");
    JoinNames(a.name + ":", h);
    JoinNames(a.name + ":" + h, ":");
    JoinNames(a.name + ":" + h + ":", a.home);
    JoinNames(a.name + ":" + h + ":" + a.home, "\n");
  }

  lemma {:induction false} TextNames(accounts: seq<Account>)
    requires forall i :: 0 <= i < |accounts| ==> Storable(accounts[i])
    ensures CName(PrintText(Made(accounts)))
  {
    if |accounts| > 0 {
      EntryNames(accounts[0]);
      TextNames(accounts[1..]);
      assert Made(accounts)[1..] == Made(accounts[1..]);
      JoinNames(PrintEntry(Made(accounts)[0]), PrintText(Made(accounts[1..])));
    }
  }

  lemma EntryLen(name: string, password: string, home: string)
    ensures |PrintEntry(MakeEntry(name, password, home))| <= |name| + |home| + 13
  {
    HashIsWord(password);
    assert Pow10(10) == 10000000000 by {
      assert Pow10(5) == 100000;
    }
    DecimalLen(Hash(password), 9);
  }

  // The text of the installer, and the default one, fit the buffer.
  lemma InstallerText511(user: string, secret: string)
    requires ScreenName(user)
    ensures var text := PrintText(InstallerEntries(user, secret));
      CName(text) && 0 < |text| <= BUF_MAX
  {
    var es := InstallerEntries(user, secret);
    var accounts := [Account("root", "toor", "/"), Account(user, secret, "/home/" + user)];
    TwoMade(accounts[0], accounts[1]);
    ScreenStorable(user, secret);
    TextNames(accounts);
    EntryLen("root", "toor", "/");
    EntryLen(user, secret, "/home/" + user);
    assert es[1..] == [es[1]] && [es[1]][1..] == [];
    assert PrintText([es[1]]) == PrintEntry(es[1]);
  }

  lemma ScreenStorable(user: string, secret: string)
    requires ScreenName(user)
    ensures Storable(Account("root", "toor", "/")) && Storable(Account(user, secret, "/home/" + user))
  {
    forall i | 0 <= i < |user| ensures 0 < user[i] as int < 256 {
      assert user[i] in user;
    }
    JoinNames("/home/", user);
  }

  lemma DefaultText511()
    ensures var text := PrintText(DefaultEntries); CName(text) && 0 < |text| <= BUF_MAX
  {
    InstallerText511("stella", "1234");
    assert "/home/" + "stella" == "/home/stella";
  }

  // ----- login_init and login_screen -----

  // The files after login_init
  ghost function AfterInit(files: map<seq<DL.Byte>, seq<DL.Byte>>, full: bool): map<seq<DL.Byte>, seq<DL.Byte>> {
    if HasText(files) || (ToBytes(PASSWD) !in files && full) then files
    else files[ToBytes(PASSWD) := ToBytes(PrintText(DefaultEntries))]
  }

  /** login_init reads the file, and makes the default one when it is missing or empty. */
  method LoginInit(disk: KernelDiskFS.DiskFS, t: UserTable) returns (n: int)
    requires disk.Valid() && t.Valid()
    modifies disk, disk.inodes, disk.disk, disk.disk.sectors, t, t.users
    ensures disk.Valid() && t.Valid() && disk.ready == old(disk.ready)
    ensures !disk.ready ==> n == -1
    ensures !disk.ready || !HasText(disk.View()) ==> t.nusers == old(t.nusers) && t.users[..] == old(t.users[..])
    ensures old(disk.ready) ==>
      (n == t.nusers && disk.View() == AfterInit(old(disk.View()), DM.FreeInode(old(disk.inodes[..])) == DL.MAX_FILES))
    ensures disk.ready && HasText(disk.View()) ==>
      t.users[..t.nusers] == ParseText(TextIn(disk.View()[ToBytes(PASSWD)]), MAX_USERS)
  {
    if !disk.ready { return -1; }
    var ret, buf := ReadPasswd(disk);
    if ret > 0 {
      var m := t.Parse(CString(ToChars(buf)));
    }
    return t.nusers;
  }

  // The one or two reads of login_init
  method ReadPasswd(disk: KernelDiskFS.DiskFS) returns (ret: int, buf: seq<DL.Byte>)
    requires disk.Valid() && disk.ready
    modifies disk, disk.inodes, disk.disk, disk.disk.sectors
    ensures disk.Valid() && disk.ready
    ensures disk.View() == AfterInit(old(disk.View()), DM.FreeInode(old(disk.inodes[..])) == DL.MAX_FILES)
    ensures ret > 0 <==> HasText(disk.View())
    ensures ret > 0 ==> buf == KernelDiskFS.Cut(disk.View()[ToBytes(PASSWD)], BUF_MAX)
  {
    ret, buf := ReadText(disk);
    if ret <= 0 {
      var text := DefaultText();
      DefaultText511();
      WriteText(disk, text);
      ret, buf := ReadText(disk);
    }
  }

  method ReadText(disk: KernelDiskFS.DiskFS) returns (ret: int, buf: seq<DL.Byte>)
    requires disk.Valid() && disk.ready
    ensures ret > 0 <==> HasText(disk.View())
    ensures ret > 0 ==> buf == KernelDiskFS.Cut(disk.View()[ToBytes(PASSWD)], BUF_MAX)
  {
    ret, buf := disk.Read(ToBytes(PASSWD), BUF_MAX);
  }

  // diskfs_write of the file: nothing happens when it is missing and no inode is left
  method WriteText(disk: KernelDiskFS.DiskFS, text: string)
    requires disk.Valid() && disk.ready && |text| <= BUF_MAX
    modifies disk, disk.inodes, disk.disk, disk.disk.sectors
    ensures disk.Valid() && disk.ready
    ensures disk.View() ==
            if ToBytes(PASSWD) !in old(disk.View()) && DM.FreeInode(old(disk.inodes[..])) == DL.MAX_FILES then
              old(disk.View())
            else old(disk.View())[ToBytes(PASSWD) := ToBytes(text)]
  {
    PasswdName();
    var w := disk.Write(ToBytes(PASSWD), ToBytes(text));
  }

  /** Start of the login system and one try on its screen: the first entry of the file that accepts the
      pair. When the file was written for `accounts` and fits the buffer, it is the first account that
      the pair opens. */
  method LogIn(disk: KernelDiskFS.DiskFS, ghost accounts: seq<Account>, name: string, password: string)
    returns (found: int)
    requires disk.Valid() && disk.ready
    requires |accounts| <= MAX_USERS && (forall i :: 0 <= i < |accounts| ==> Storable(accounts[i]))
    modifies disk, disk.inodes, disk.disk, disk.disk.sectors
    ensures disk.Valid() && disk.ready
    ensures disk.View() == AfterInit(old(disk.View()), DM.FreeInode(old(disk.inodes[..])) == DL.MAX_FILES)
    ensures !HasText(disk.View()) ==> found == -1
    ensures HasText(disk.View()) ==>
      FirstMatch(ParseText(TextIn(disk.View()[ToBytes(PASSWD)]), MAX_USERS), name, password, found)
    ensures var text := PrintText(Made(accounts));
      0 < |text| <= BUF_MAX && HoldsText(disk.View(), text) ==> FirstOpened(accounts, name, password, found)
  {
    var t := new UserTable();
    var n := LoginInit(disk, t);
    found := t.Check(name, password);
    if HasText(disk.View()) { OpenedIs(accounts, disk.View()[ToBytes(PASSWD)], name, password, found); }
  }

  lemma OpenedIs(accounts: seq<Account>, bytes: seq<DL.Byte>, name: string, password: string, found: int)
    requires |accounts| <= MAX_USERS && (forall i :: 0 <= i < |accounts| ==> Storable(accounts[i]))
    requires FirstMatch(ParseText(TextIn(bytes), MAX_USERS), name, password, found)
    ensures var text := PrintText(Made(accounts));
      |text| <= BUF_MAX && bytes == ToBytes(text) ==> FirstOpened(accounts, name, password, found)
  {
    var text := PrintText(Made(accounts));
    if |text| <= BUF_MAX && bytes == ToBytes(text) {
      TextNames(accounts);
      TextBack(text);
      AccountLogins(accounts, name, password);
    }
  }

  // The two accounts that log in up to equal hashes, and what that means for names and passwords
  predicate OpensTwo(user: string, secret: string, name: string, password: string) {
    (name == "root" && Hash(password) == Hash("toor")) || (name == user && Hash(password) == Hash(secret))
  }

  lemma OpensExactly(user: string, secret: string, name: string, password: string)
    ensures (name == "root" && password == "toor") || (name == user && password == secret) ==>
      OpensTwo(user, secret, name, password)
    ensures name != "root" && name != user ==> !OpensTwo(user, secret, name, password)
    ensures name == "root" != user && OneOff(password, "toor") ==> !OpensTwo(user, secret, name, password)
    ensures name == user != "root" && OneOff(password, secret) ==> !OpensTwo(user, secret, name, password)
  {
    if OneOff(password, "toor") { OneOffHash(password, "toor"); }
    if OneOff(password, secret) { OneOffHash(password, secret); }
  }

  /** On a disk without a passwd file, and with room for one, exactly the two default accounts log in, up to
      passwords of the same hash; one wrong character is always refused. */
  method FirstLogIn(disk: KernelDiskFS.DiskFS, name: string, password: string) returns (found: int)
    requires disk.Valid() && disk.ready && !HasText(disk.View())
    requires ToBytes(PASSWD) in disk.View() || DM.FreeInode(disk.inodes[..]) < DL.MAX_FILES
    modifies disk, disk.inodes, disk.disk, disk.disk.sectors
    ensures found != -1 <==> OpensTwo("stella", "1234", name, password)
    ensures (name == "root" && password == "toor") || (name == "stella" && password == "1234") ==> found != -1
    ensures name != "root" && name != "stella" ==> found == -1
    ensures (name == "root" && OneOff(password, "toor")) || (name == "stella" && OneOff(password, "1234")) ==>
      found == -1
  {
    OpensExactly("stella", "1234", name, password);
    DefaultText511();
    ghost var text := PrintText(DefaultEntries);
    found := LogIn(disk, [], name, password);
    assert HoldsText(disk.View(), text);
    TextBack(text);
    DefaultLogins(name, password);
  }

  /** After the installer wrote the file, for any name that its screen lets through, exactly root and the
      user log in, up to passwords of the same hash; one wrong character is always refused. */
  method InstallAndLogIn(disk: KernelDiskFS.DiskFS, user: string, secret: string, name: string, password: string)
    returns (found: int)
    requires disk.Valid() && disk.ready && ScreenName(user)
    requires ToBytes(PASSWD) in disk.View() || DM.FreeInode(disk.inodes[..]) < DL.MAX_FILES
    modifies disk, disk.inodes, disk.disk, disk.disk.sectors
    ensures found != -1 <==> OpensTwo(user, secret, name, password)
    ensures (name == "root" && password == "toor") || (name == user && password == secret) ==> found != -1
    ensures name != "root" && name != user ==> found == -1
    ensures name == "root" != user && OneOff(password, "toor") ==> found == -1
    ensures name == user != "root" && OneOff(password, secret) ==> found == -1
  {
    OpensExactly(user, secret, name, password);
    var text := InstallerText(user, secret);
    InstallerText511(user, secret);
    WriteText(disk, text);
    assert HoldsText(disk.View(), text) && HasText(disk.View());
    found := LogIn(disk, [], name, password);
    InstalledIs(user, secret, disk.View()[ToBytes(PASSWD)], name, password, found);
  }

  lemma InstalledIs(user: string, secret: string, bytes: seq<DL.Byte>, name: string, password: string, found: int)
    requires ScreenName(user) && bytes == ToBytes(PrintText(InstallerEntries(user, secret)))
    requires FirstMatch(ParseText(TextIn(bytes), MAX_USERS), name, password, found)
    ensures found != -1 <==>
            (name == "root" && Hash(password) == Hash("toor")) || (name == user && Hash(password) == Hash(secret))
  {
    InstallerText511(user, secret);
    TextBack(PrintText(InstallerEntries(user, secret)));
    ScreenLogins(user, secret, name, password);
  }
}
