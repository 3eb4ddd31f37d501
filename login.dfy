/**
 * The login program, the first user process: it loads the account file into
 * its own copy of the account array (creating the file with the root account
 * when it is missing, short, or has no root in slot 0), then reads a user
 * name and a password per attempt and accepts them when some slot holds
 * exactly that pair.  File system calls that can fail take their outcome as
 * a parameter.
 */
module Login {
  import opened CStrings
  import opened Codec

  /** The account every fresh store starts with. */
  const ROOT_NAME: CString := "root"
  const ROOT_PASSWORD: CString := "0000"

  /** sizeof(username) == sizeof(password) in main: gets keeps at most LINE_SIZE - 1 characters. */
  const LINE_SIZE: nat := 15

  /** Slot s holds exactly this user name and password. */
  predicate CredentialsMatch(arr: seq<char>, s: nat, username: CString, password: CString)
    requires |arr| == STORE_SIZE && s < SLOTS
  {
    Decoded(arr, SlotStart(s)) == username && Decoded(arr, SlotStart(s) + FIELD_SIZE) == password
  }

  /** Each slot's answer to the login test, in slot order. */
  function Matches(arr: seq<char>, username: CString, password: CString): (r: seq<bool>)
    requires |arr| == STORE_SIZE
    ensures |r| == SLOTS && forall s :: 0 <= s < SLOTS ==> r[s] == CredentialsMatch(arr, s, username, password)
  {
    seq(SLOTS, s requires 0 <= s < SLOTS => CredentialsMatch(arr, s, username, password))
  }

  /** The slot at which the login loop stops. */
  function FirstMatch(arr: seq<char>, username: CString, password: CString): (r: Option<nat>)
    requires |arr| == STORE_SIZE
    ensures r.Some? ==> r.value < SLOTS && CredentialsMatch(arr, r.value, username, password)
    ensures r.Some? ==> forall s :: 0 <= s < r.value ==> !CredentialsMatch(arr, s, username, password)
    ensures r.None? ==> forall s :: 0 <= s < SLOTS ==> !CredentialsMatch(arr, s, username, password)
  {
    FirstSet(Matches(arr, username, password), 0)
  }

  /** The array after save(username, password) has encoded the pair into slot 0. */
  function SavedPair(arr: seq<char>, username: CString, password: CString): seq<char>
    requires |arr| == STORE_SIZE
  {
    Overwrite(Overwrite(arr, 0, Capped(username)), FIELD_SIZE, Capped(password))
  }

  /** The array main builds when loading fails: all sentinel, then root's account saved into slot 0. */
  function InitialStore(): seq<char>
  {
    SavedPair(Stars(STORE_SIZE), ROOT_NAME, ROOT_PASSWORD)
  }

  /** The file after a successful save of arr: written from offset 0, created empty first when missing. */
  function SavedFile(disk: Option<seq<char>>, arr: seq<char>): seq<char>
  {
    WriteAtStart(if disk.Some? then disk.value else [], arr)
  }

  /**
   * What one call of gets(buf, LINE_SIZE) can deliver: at most LINE_SIZE - 1
   * characters, and gets stops right after a newline or a carriage return,
   * so neither occurs before the last character.
   */
  predicate IsGetsLine(line: CString)
  {
    |line| < LINE_SIZE && forall j :: 0 <= j < |line| - 1 ==> line[j] != '\n' && line[j] != '\r'
  }

  /** Once its last character is stripped, a line from gets holds no line break. */
  lemma StrippedLineHasNoBreak(line: CString)
    requires 1 <= |line| && IsGetsLine(line)
    ensures '\n' !in line[..|line| - 1] && '\r' !in line[..|line| - 1]
  {
    forall j | 0 <= j < |line| - 1 ensures line[..|line| - 1][j] == line[j] {
    }
  }

  /** gets(buf, sizeof buf): the line read (the newline included) lands at the front of buf, followed by a terminator. */
  method Gets(buf: array<char>, line: CString)
    requires buf.Length == LINE_SIZE && IsGetsLine(line)
    modifies buf
    ensures buf[..] == line + ['\0'] + old(buf[..])[|line| + 1..]
    ensures UntilNul(buf[..]) == line
  {
    forall j | 0 <= j < |line| {
      buf[j] := line[j];
    }
    buf[|line|] := '\0';
    assert buf[..] == line + ['\0'] + old(buf[..])[|line| + 1..];
    UntilNulStopsAtNul(line, old(buf[..])[|line| + 1..]);
    UntilNulOfCString(line);
  }

  /** strlen(buf): the number of characters before the first NUL. */
  method StrLen(buf: array<char>) returns (n: nat)
    requires '\0' in buf[..]
    ensures n < buf.Length && buf[n] == '\0' && n == |UntilNul(buf[..])|
  {
    n := 0;
    while buf[n] != '\0'
      invariant n < buf.Length && '\0' !in buf[..n] && '\0' in buf[n..]
      decreases buf.Length - n
    {
      assert buf[..n + 1] == buf[..n] + [buf[n]];
      assert buf[n..] == [buf[n]] + buf[n + 1..];
      n := n + 1;
    }
    assert buf[..] == buf[..n] + ['\0'] + buf[n + 1..];
    UntilNulStopsAtNul(buf[..n], buf[n + 1..]);
    UntilNulOfCString(buf[..n]);
  }

  /**
   * username[strlen(username)-1] = 0: the last character of the string in
   * buf -- the newline gets keeps -- becomes its terminator.
   */
  method StripLast(buf: array<char>)
    requires '\0' in buf[..] && 1 <= |UntilNul(buf[..])|
    modifies buf
    ensures var line := UntilNul(old(buf[..]));
      buf[..] == old(buf[..])[|line| - 1 := '\0'] && UntilNul(buf[..]) == line[..|line| - 1]
  {
    ghost var line := UntilNul(buf[..]);
    ghost var rest := buf[|line|..];
    var n := StrLen(buf);
    buf[n - 1] := '\0';
    ghost var kept: CString := line[..n - 1];
    assert buf[..] == kept + ['\0'] + rest;
    UntilNulStopsAtNul(kept, rest);
    UntilNulOfCString(kept);
  }

  /**
   * One prompt of main's loop: gets a line into buf, then overwrite its last
   * character with the terminator. What remains is the line without its
   * last character.
   */
  method ReadLine(buf: array<char>, line: CString)
    requires buf.Length == LINE_SIZE && 1 <= |line| && IsGetsLine(line)
    modifies buf
    ensures UntilNul(buf[..]) == line[..|line| - 1]
  {
    Gets(buf, line);
    assert buf[..][|line|] == '\0';
    StripLast(buf);
  }

  /** One pass of main's for loop: decode slot s's two fields and compare them with the pair. */
  method SlotMatches(arr: seq<char>, s: nat, username: CString, password: CString) returns (m: bool)
    requires |arr| == STORE_SIZE && s < SLOTS
    ensures m == CredentialsMatch(arr, s, username, password)
  {
    var temp1 := DecodeField(arr, SlotStart(s));
    var temp2 := DecodeField(arr, SlotStart(s) + FIELD_SIZE);
    m := temp1 == username && temp2 == password;
  }

  /** The for loop of main: decode each slot's two fields and stop at the first that equal the pair. */
  method ScanCredentials(arr: seq<char>, username: CString, password: CString) returns (found: bool)
    requires |arr| == STORE_SIZE
    ensures found <==> FirstMatch(arr, username, password).Some?
  {
    ghost var flags := Matches(arr, username, password);
    found := false;
    var s := 0;
    while s < SLOTS && !found
      invariant 0 <= s <= SLOTS
      invariant !found ==> FirstSet(flags, 0) == FirstSet(flags, s)
      invariant found ==> FirstSet(flags, 0).Some?
    {
      found := SlotMatches(arr, s, username, password);
      assert flags[s] == found;
      s := s + 1;
    }
  }

  class LoginShell {
    /** account_array, the program's copy of the account store */
    const accounts: array<char>
    /** the contents of ./aafile.txt, None when it does not exist */
    var disk: Option<seq<char>>
    /** entryFlag in main: set by a matching attempt and never cleared */
    var entryFlag: bool
    /** the name last handed to setCurrentUser */
    var currentUser: CString
    /** username[15] and password[15] in main, the buffers gets fills */
    const userBuf: array<char>
    const passBuf: array<char>

    ghost predicate Valid()
      reads this
    {
      && accounts.Length == STORE_SIZE && userBuf.Length == LINE_SIZE && passBuf.Length == LINE_SIZE
      && userBuf != passBuf && accounts != userBuf && accounts != passBuf
    }

    constructor (disk: Option<seq<char>>)
      ensures Valid() && fresh(accounts) && accounts[..] == seq(STORE_SIZE, _ => '\0')
      ensures fresh(userBuf) && fresh(passBuf)
      ensures this.disk == disk && !entryFlag && currentUser == []
    {
      accounts := new char[STORE_SIZE](_ => '\0');
      userBuf := new char[LINE_SIZE](_ => '\0');
      passBuf := new char[LINE_SIZE](_ => '\0');
      this.disk := disk;
      entryFlag := false;
      currentUser := [];
    }

    /**
     * save: encodes the pair into slot 0 of the array (at most FIELD_SIZE
     * characters each), then writes the whole array to the file.  ioOk is
     * whether the open and the write succeed; when they do not, 0 is
     * returned and the file is left as it was.
     */
    method Save(username: CString, password: CString, ioOk: bool) returns (r: int)
      requires Valid()
      modifies accounts, this`disk
      ensures accounts[..] == SavedPair(old(accounts[..]), username, password)
      ensures ioOk ==> r == 1 && disk == Some(SavedFile(old(disk), accounts[..]))
      ensures !ioOk ==> r == 0 && disk == old(disk)
    {
      EncodeUser(accounts, username, 0);
      EncodeUser(accounts, password, FIELD_SIZE);
      if !ioOk {
        return 0;
      }
      disk := Some(SavedFile(disk, accounts[..]));
      return 1;
    }

    /**
     * load: fails (0) when the file is missing or holds fewer than
     * STORE_SIZE bytes -- a short read still overwrites the front of the
     * array.  Otherwise the array is the file's first STORE_SIZE bytes, and
     * when slot 0 does not decode to "root" the root account is saved over
     * slot 0 (whatever that save returns, load returns 1).
     */
    method Load(ioOk: bool) returns (r: int)
      requires Valid()
      modifies accounts, this`disk
      ensures old(disk).None? ==> r == 0 && accounts[..] == old(accounts[..]) && disk == old(disk)
      ensures old(disk).Some? && |old(disk).value| < STORE_SIZE ==>
        r == 0 && accounts[..] == ReadAtStart(old(accounts[..]), old(disk).value) && disk == old(disk)
      ensures old(disk).Some? && |old(disk).value| >= STORE_SIZE ==>
        var arr := old(disk).value[..STORE_SIZE];
        r == 1
        && (Decoded(arr, 0) == ROOT_NAME ==> accounts[..] == arr && disk == old(disk))
        && (Decoded(arr, 0) != ROOT_NAME ==>
              accounts[..] == SavedPair(arr, ROOT_NAME, ROOT_PASSWORD)
              && disk == (if ioOk then Some(SavedFile(old(disk), accounts[..])) else old(disk)))
    {
      if disk.None? {
        return 0;
      }
      var f := disk.value;
      var n := if |f| < STORE_SIZE then |f| else STORE_SIZE;
      forall j | 0 <= j < n {
        accounts[j] := f[j];
      }
      assert accounts[..] == ReadAtStart(old(accounts[..]), f);
      if n != STORE_SIZE {
        return 0;
      }
      assert accounts[..] == f[..STORE_SIZE];
      var temp1 := DecodeField(accounts[..], 0);
      if temp1 != ROOT_NAME {
        var _ := Save(ROOT_NAME, ROOT_PASSWORD, ioOk);
      }
      return 1;
    }

    /** The loop in main that fills the array with sentinels, one strcpy of "*" per byte. */
    method FillSentinels()
      requires Valid()
      modifies accounts
      ensures accounts[..] == Stars(STORE_SIZE)
    {
      var i := 0;
      while i < STORE_SIZE
        invariant 0 <= i <= STORE_SIZE
        invariant forall j :: 0 <= j < i ==> accounts[j] == SENTINEL
      {
        accounts[i] := SENTINEL;
        if i + 1 < STORE_SIZE {
          // strcpy's terminator; the last one falls just past the array
          accounts[i + 1] := '\0';
        }
        i := i + 1;
      }
      assert forall j :: 0 <= j < STORE_SIZE ==> accounts[..][j] == Stars(STORE_SIZE)[j];
    }

    /**
     * The start of main: load, and when that fails, fill the array with
     * sentinels and save the root account.  Every file operation succeeds
     * exactly when ioOk holds.
     */
    method Boot(ioOk: bool)
      requires Valid()
      modifies accounts, this`disk
      ensures old(disk).Some? && |old(disk).value| >= STORE_SIZE ==>
        var arr := old(disk).value[..STORE_SIZE];
        (Decoded(arr, 0) == ROOT_NAME ==> accounts[..] == arr && disk == old(disk))
        && (Decoded(arr, 0) != ROOT_NAME ==>
              accounts[..] == SavedPair(arr, ROOT_NAME, ROOT_PASSWORD)
              && disk == (if ioOk then Some(SavedFile(old(disk), accounts[..])) else old(disk)))
      ensures old(disk).None? || |old(disk).value| < STORE_SIZE ==>
        accounts[..] == InitialStore()
        && disk == (if ioOk then Some(SavedFile(old(disk), InitialStore())) else old(disk))
    {
      var loaded := Load(ioOk);
      if loaded == 0 {
        FillSentinels();
        var _ := Save(ROOT_NAME, ROOT_PASSWORD, ioOk);
      }
    }

    /**
     * One pass of main's loop.  Each line is what gets reads; the program
     * overwrites its last character (the newline) with a terminator.  The
     * pair left in the buffers is accepted when some slot holds it exactly --
     * or when an earlier attempt was, since entryFlag is never cleared -- and
     * then becomes the current user.
     */
    method Attempt(userLine: CString, passLine: CString) returns (loggedIn: bool)
      requires Valid()
      requires 1 <= |userLine| && IsGetsLine(userLine) && 1 <= |passLine| && IsGetsLine(passLine)
      modifies userBuf, passBuf, this`entryFlag, this`currentUser
      ensures UntilNul(userBuf[..]) == userLine[..|userLine| - 1]
      ensures UntilNul(passBuf[..]) == passLine[..|passLine| - 1]
      ensures var username, password := UntilNul(userBuf[..]), UntilNul(passBuf[..]);
        && entryFlag == (old(entryFlag) || FirstMatch(accounts[..], username, password).Some?)
        && loggedIn == entryFlag
        && currentUser == if entryFlag then username else old(currentUser)
    {
      ReadLine(userBuf, userLine);
      ReadLine(passBuf, passLine);
      loggedIn := Admit(UntilNul(userBuf[..]), UntilNul(passBuf[..]));
    }

    /** The rest of the pass: scan the store for the pair, then record who logged in. */
    method Admit(username: CString, password: CString) returns (loggedIn: bool)
      requires Valid()
      modifies this`entryFlag, this`currentUser
      ensures entryFlag == (old(entryFlag) || FirstMatch(accounts[..], username, password).Some?)
      ensures loggedIn == entryFlag
      ensures currentUser == if entryFlag then username else old(currentUser)
    {
      var found := ScanCredentials(accounts[..], username, password);
      if found {
        entryFlag := true;
      }
      if entryFlag {
        currentUser := username;
      }
      return entryFlag;
    }
  }

  // ---------------------------------------------------------------- properties

  /** The boot store: root/0000 in slot 0 and every other slot free, both fields blank. */
  lemma InitialStoreLayout()
    ensures |InitialStore()| == STORE_SIZE
    ensures Decoded(InitialStore(), 0) == ROOT_NAME && Decoded(InitialStore(), FIELD_SIZE) == ROOT_PASSWORD
    ensures forall s :: 1 <= s < SLOTS ==>
      IsBlank(InitialStore(), SlotStart(s)) && IsBlank(InitialStore(), SlotStart(s) + FIELD_SIZE)
  {
    assert Capped(ROOT_NAME) == ROOT_NAME && Capped(ROOT_PASSWORD) == ROOT_PASSWORD;
    var once := Overwrite(Stars(STORE_SIZE), 0, ROOT_NAME);
    assert forall j :: 0 <= j < STORE_SIZE ==> once[j] == if j < |ROOT_NAME| then ROOT_NAME[j] else SENTINEL;
    var w := Overwrite(once, FIELD_SIZE, ROOT_PASSWORD);
    assert w == InitialStore();
    assert forall j :: 0 <= j < STORE_SIZE ==>
      w[j] == if j < |ROOT_NAME| then ROOT_NAME[j]
              else if FIELD_SIZE <= j < FIELD_SIZE + |ROOT_PASSWORD| then ROOT_PASSWORD[j - FIELD_SIZE]
              else SENTINEL;
    FieldHolds(w, 0, ROOT_NAME);
    FieldHolds(w, FIELD_SIZE, ROOT_PASSWORD);
    forall s | 1 <= s < SLOTS
      ensures IsBlank(w, SlotStart(s)) && IsBlank(w, SlotStart(s) + FIELD_SIZE)
    {
      assert ACCOUNT_SIZE <= SlotStart(s);
    }
  }

  /** On the boot store root logs in with 0000, at slot 0. */
  lemma RootLogsIn()
    ensures FirstMatch(InitialStore(), ROOT_NAME, ROOT_PASSWORD) == Some(0)
  {
    InitialStoreLayout();
  }

  /** On the boot store root with any other password is turned away. */
  lemma WrongPasswordRejected(password: CString)
    requires password != ROOT_PASSWORD
    ensures FirstMatch(InitialStore(), ROOT_NAME, password).None?
  {
    InitialStoreLayout();
    forall s | 1 <= s < SLOTS ensures Decoded(InitialStore(), SlotStart(s)) == [] {
      BlankDecodesEmpty(InitialStore(), SlotStart(s));
    }
  }

  /**
   * An empty name with an empty password is accepted: a free slot whose
   * password field is blank decodes to two empty strings.
   */
  lemma BlankCredentialsMatchFreeSlot(arr: seq<char>, s: nat)
    requires |arr| == STORE_SIZE && s < SLOTS
    requires IsBlank(arr, SlotStart(s)) && IsBlank(arr, SlotStart(s) + FIELD_SIZE)
    ensures FirstMatch(arr, [], []).Some? && FirstMatch(arr, [], []).value <= s
  {
    BlankDecodesEmpty(arr, SlotStart(s));
    BlankDecodesEmpty(arr, SlotStart(s) + FIELD_SIZE);
    assert CredentialsMatch(arr, s, [], []);
  }

  /** On the boot store the empty pair logs in at slot 1. */
  lemma BlankCredentialsOnBootStore()
    ensures FirstMatch(InitialStore(), [], []) == Some(1)
  {
    InitialStoreLayout();
    BlankCredentialsMatchFreeSlot(InitialStore(), 1);
  }
}
