/**
 * The kernel side of the account store: the addUser, deleteUser and chmod
 * system calls.  Each reads the account file /aafile.txt into the kernel's
 * 300-byte account array, edits the array, and (for add and delete) writes it
 * back.  The account file is modelled as an optional byte sequence (None when
 * the lookup of /aafile.txt fails).
 */
module KernelAccounts {
  import opened CStrings
  import opened Codec

  /** sizeof(char *) on the 32-bit target: the width the kernel passes to strncmp when it compares user names. */
  const PW: nat := 4

  /** The part of an inode this subsystem reads and writes. */
  class Inode {
    var kind: int
    var per: int
    var ownerid: int
    var nlink: int

    constructor (kind: int, per: int, ownerid: int, nlink: int)
      ensures this.kind == kind && this.per == per && this.ownerid == ownerid && this.nlink == nlink
    {
      this.kind := kind;
      this.per := per;
      this.ownerid := ownerid;
      this.nlink := nlink;
    }
  }

  // ---------------------------------------------------------------- slots

  /** The username field of slot s is all sentinel: the slot is free. */
  predicate SlotFree(arr: seq<char>, s: nat)
    requires |arr| == STORE_SIZE && s < SLOTS
  {
    IsBlank(arr, SlotStart(s))
  }

  /**
   * The duplicate test of addUser: the 15 raw bytes of slot s's username
   * field, read as a C string, agree with username on sizeof(char *) bytes.
   */
  predicate RawNameClash(arr: seq<char>, s: nat, username: CString)
    requires |arr| == STORE_SIZE && s < SLOTS
  {
    StrnEq(UntilNul(arr[SlotStart(s)..SlotStart(s) + FIELD_SIZE]), username, PW)
  }

  /** Some slot, free or not, fails addUser's duplicate test. */
  predicate HasDuplicate(arr: seq<char>, username: CString)
    requires |arr| == STORE_SIZE
  {
    exists s :: 0 <= s < SLOTS && RawNameClash(arr, s, username)
  }

  /** Each slot's answer to addUser's duplicate test, in slot order. */
  function RawClashes(arr: seq<char>, username: CString): (r: seq<bool>)
    requires |arr| == STORE_SIZE
    ensures |r| == SLOTS && forall s :: 0 <= s < SLOTS ==> r[s] == RawNameClash(arr, s, username)
  {
    seq(SLOTS, s requires 0 <= s < SLOTS => RawNameClash(arr, s, username))
  }

  /**
   * The lookup test of deleteUser: the decoded username of slot s agrees
   * with username on sizeof(char *) bytes.
   */
  predicate DecodedNameClash(arr: seq<char>, s: nat, username: CString)
    requires |arr| == STORE_SIZE && s < SLOTS
  {
    StrnEq(Decoded(arr, SlotStart(s)), username, PW)
  }

  /** Each slot's answer to addUser's free-slot test, in slot order. */
  function FreeFlags(arr: seq<char>): (r: seq<bool>)
    requires |arr| == STORE_SIZE
    ensures |r| == SLOTS && forall s :: 0 <= s < SLOTS ==> r[s] == SlotFree(arr, s)
  {
    seq(SLOTS, s requires 0 <= s < SLOTS => SlotFree(arr, s))
  }

  /** The slot addUser fills: the first free one after slot 0, which belongs to root. */
  function FreeSlot(arr: seq<char>): (r: Option<nat>)
    requires |arr| == STORE_SIZE
    ensures r.Some? ==> 1 <= r.value < SLOTS && SlotFree(arr, r.value)
    ensures r.Some? ==> forall s :: 1 <= s < r.value ==> !SlotFree(arr, s)
    ensures r.None? ==> forall s :: 1 <= s < SLOTS ==> !SlotFree(arr, s)
  {
    FirstSet(FreeFlags(arr), 1)
  }

  /** Each slot's answer to deleteUser's lookup test, in slot order. */
  function NameClashes(arr: seq<char>, username: CString): (r: seq<bool>)
    requires |arr| == STORE_SIZE
    ensures |r| == SLOTS && forall s :: 0 <= s < SLOTS ==> r[s] == DecodedNameClash(arr, s, username)
  {
    seq(SLOTS, s requires 0 <= s < SLOTS => DecodedNameClash(arr, s, username))
  }

  /** The slot deleteUser settles on, slot 0 included. */
  function FindByName(arr: seq<char>, username: CString): (r: Option<nat>)
    requires |arr| == STORE_SIZE
    ensures r.Some? ==> r.value < SLOTS && DecodedNameClash(arr, r.value, username)
    ensures r.Some? ==> forall s :: 0 <= s < r.value ==> !DecodedNameClash(arr, s, username)
    ensures r.None? ==> forall s :: 0 <= s < SLOTS ==> !DecodedNameClash(arr, s, username)
  {
    FirstSet(NameClashes(arr, username), 0)
  }

  /** The store after the kernel encoder writes username at idx and password at idx + 15. */
  function Inserted(arr: seq<char>, idx: nat, username: CString, password: CString): seq<char>
    requires |arr| == STORE_SIZE
    requires idx + |username| <= STORE_SIZE && idx + FIELD_SIZE + |password| <= STORE_SIZE
  {
    Overwrite(Overwrite(arr, idx, username), idx + FIELD_SIZE, password)
  }

  /** The store after both fields of the account at idx are covered with sentinels. */
  function Blanked(arr: seq<char>, idx: nat): seq<char>
    requires |arr| == STORE_SIZE && idx + ACCOUNT_SIZE <= STORE_SIZE
  {
    Overwrite(Overwrite(arr, idx, Stars(FIELD_SIZE)), idx + FIELD_SIZE, Stars(FIELD_SIZE))
  }

  /** One pass of deleteUser's loop: decode slot s's name and compare it on sizeof(char *) bytes. */
  method NameAt(arr: seq<char>, s: nat, username: CString) returns (clash: bool)
    requires |arr| == STORE_SIZE && s < SLOTS
    ensures clash == DecodedNameClash(arr, s, username)
  {
    var name := DecodeField(arr, SlotStart(s));
    clash := StrnEq(name, username, PW);
  }

  /**
   * One pass of addUser's first loop: strncpy slot s's raw name field into
   * the 15-byte buffer name, then compare it on sizeof(char *) bytes.
   */
  method RawNameAt(arr: seq<char>, s: nat, username: CString) returns (clash: bool)
    requires |arr| == STORE_SIZE && s < SLOTS
    ensures clash == RawNameClash(arr, s, username)
  {
    var name := new char[FIELD_SIZE];
    StrNCopy(name, arr, SlotStart(s), FIELD_SIZE);
    NulPaddedReadsBack(name[..], UntilNul(arr[SlotStart(s)..SlotStart(s) + FIELD_SIZE]));
    clash := StrnEq(UntilNul(name[..]), username, PW);
  }

  /** addUser's first loop: does any of the ten slots fail the duplicate test? */
  method ScanDuplicates(arr: seq<char>, username: CString) returns (dup: bool)
    requires |arr| == STORE_SIZE
    ensures dup <==> HasDuplicate(arr, username)
  {
    ghost var flags := RawClashes(arr, username);
    dup := false;
    var s := 0;
    while s < SLOTS && !dup
      invariant 0 <= s <= SLOTS
      invariant !dup ==> FirstSet(flags, 0) == FirstSet(flags, s)
      invariant dup ==> FirstSet(flags, 0) == Some(s - 1)
    {
      dup := RawNameAt(arr, s, username);
      assert flags[s] == dup;
      s := s + 1;
    }
    DuplicateIsFirstClash(arr, username);
  }

  /** Some slot fails the duplicate test exactly when a first such slot exists. */
  lemma DuplicateIsFirstClash(arr: seq<char>, username: CString)
    requires |arr| == STORE_SIZE
    ensures HasDuplicate(arr, username) <==> FirstSet(RawClashes(arr, username), 0).Some?
  {
    var flags := RawClashes(arr, username);
    if FirstSet(flags, 0).Some? {
      assert RawNameClash(arr, FirstSet(flags, 0).value, username);
    }
  }

  /** addUser's second loop: the offset of the first free slot after root's, or 0 when the store is full. */
  method ScanFreeSlot(arr: seq<char>) returns (idx: nat)
    requires |arr| == STORE_SIZE
    ensures FreeSlot(arr).None? ==> idx == 0
    ensures FreeSlot(arr).Some? ==> idx == SlotStart(FreeSlot(arr).value)
  {
    ghost var flags := FreeFlags(arr);
    idx := 0;
    var s := 1;
    while s < SLOTS && idx == 0
      invariant 1 <= s <= SLOTS
      invariant idx == 0 ==> FirstSet(flags, 1) == FirstSet(flags, s)
      invariant idx != 0 ==> FirstSet(flags, 1) == Some(s - 1) && idx == SlotStart(s - 1)
    {
      var temp := arr[SlotStart(s)..SlotStart(s) + FIELD_SIZE];
      if temp == Stars(FIELD_SIZE) {
        assert SlotFree(arr, s) by {
          forall j | SlotStart(s) <= j < SlotStart(s) + FIELD_SIZE ensures arr[j] == SENTINEL {
            assert arr[j] == temp[j - SlotStart(s)];
          }
        }
        idx := SlotStart(s);
      }
      s := s + 1;
    }
  }

  /** deleteUser's loop: the offset of the first slot whose decoded name passes the lookup test, 0 when none does or slot 0 does. */
  method ScanByName(arr: seq<char>, username: CString) returns (idx: nat)
    requires |arr| == STORE_SIZE
    ensures var found := FindByName(arr, username);
      if found.Some? then idx == SlotStart(found.value) else idx == 0
  {
    ghost var flags := NameClashes(arr, username);
    idx := 0;
    var hit := false;
    var s := 0;
    while s < SLOTS && !hit
      invariant 0 <= s <= SLOTS
      invariant !hit ==> idx == 0 && FirstSet(flags, 0) == FirstSet(flags, s)
      invariant hit ==> 1 <= s && FirstSet(flags, 0) == Some(s - 1) && idx == SlotStart(s - 1)
    {
      hit := NameAt(arr, s, username);
      assert flags[s] == hit;
      if hit {
        idx := SlotStart(s);
      }
      s := s + 1;
    }
  }

  // ---------------------------------------------------------------- the kernel state

  class Kernel {
    /** account_array, the kernel's copy of the account store */
    const accounts: array<char>
    /** the contents of /aafile.txt, None when the file does not exist */
    var accountFile: Option<seq<char>>
    /** the logged-in user, as set by setCurrentUser */
    var currentUser: CString
    /** sizeof(currentUser), the width chmod passes to strncmp */
    const currentUserSize: nat

    ghost predicate Valid()
      reads this
    {
      accounts.Length == STORE_SIZE
    }

    constructor (accountFile: Option<seq<char>>, currentUser: CString, currentUserSize: nat)
      ensures Valid() && fresh(accounts)
      ensures this.accountFile == accountFile && this.currentUser == currentUser
      ensures this.currentUserSize == currentUserSize
    {
      accounts := new char[STORE_SIZE](_ => '\0');
      this.accountFile := accountFile;
      this.currentUser := currentUser;
      this.currentUserSize := currentUserSize;
    }

    /** readi(id, account_array, 0, sizeof(account_array)) */
    method ReadAccounts(f: seq<char>)
      requires Valid()
      modifies accounts
      ensures accounts[..] == ReadAtStart(old(accounts[..]), f)
    {
      var n := if |f| < STORE_SIZE then |f| else STORE_SIZE;
      forall j | 0 <= j < n {
        accounts[j] := f[j];
      }
    }

    /** writei(id, account_array, 0, 300) */
    method WriteAccounts()
      requires Valid() && accountFile.Some?
      modifies this`accountFile
      ensures accountFile == Some(WriteAtStart(old(accountFile).value, accounts[..]))
    {
      accountFile := Some(WriteAtStart(accountFile.value, accounts[..]));
    }

    /** addUser's write-back: both fields are encoded at idx and the store is written to the file. */
    method StoreAccount(idx: nat, username: CString, password: CString)
      requires Valid() && accountFile.Some?
      requires idx + |username| <= STORE_SIZE && idx + FIELD_SIZE + |password| <= STORE_SIZE
      modifies accounts, this`accountFile
      ensures accounts[..] == Inserted(old(accounts[..]), idx, username, password)
      ensures accountFile == Some(WriteAtStart(old(accountFile).value, accounts[..]))
    {
      EncodeKernel(accounts, username, idx);
      EncodeKernel(accounts, password, idx + FIELD_SIZE);
      WriteAccounts();
    }

    /**
     * sys_addUser.  Only root may add; the store is reloaded from the file;
     * any slot that fails the duplicate test rejects the name; the first free
     * slot after root's receives the account, which is written back; and the
     * directory created for the user (null when create fails) gets the slot's
     * offset as its owner.
     */
    method AddUser(username: CString, password: CString, dir: Inode?) returns (r: int)
      requires Valid()
      requires |username| <= ACCOUNT_SIZE && |password| <= FIELD_SIZE
      modifies accounts, this`accountFile, dir
      ensures !IsRoot(currentUser) || old(accountFile).None? ==>
        r == -1 && accounts[..] == old(accounts[..]) && accountFile == old(accountFile)
        && (dir != null ==> dir.ownerid == old(dir.ownerid))
      ensures IsRoot(currentUser) && old(accountFile).Some? ==>
        var arr := ReadAtStart(old(accounts[..]), old(accountFile).value);
        (HasDuplicate(arr, username) || FreeSlot(arr).None? ==>
          r == -1 && accounts[..] == arr && accountFile == old(accountFile)
          && (dir != null ==> dir.ownerid == old(dir.ownerid)))
        && (!HasDuplicate(arr, username) && FreeSlot(arr).Some? ==>
          var idx := SlotStart(FreeSlot(arr).value);
          r == 0 && accounts[..] == Inserted(arr, idx, username, password)
          && accountFile == Some(WriteAtStart(old(accountFile).value, accounts[..]))
          && (dir != null ==> dir.ownerid == idx))
      ensures dir != null ==> dir.kind == old(dir.kind) && dir.per == old(dir.per) && dir.nlink == old(dir.nlink)
    {
      if !IsRoot(currentUser) {
        return -1;
      }
      if accountFile.None? {
        return -1;
      }
      ReadAccounts(accountFile.value);
      ghost var arr := accounts[..];
      var dup := ScanDuplicates(accounts[..], username);
      if dup {
        return -1;
      }
      var idx := ScanFreeSlot(accounts[..]);
      var ownerid := idx;
      if idx == 0 {
        return -1;
      }
      assert idx == SlotStart(FreeSlot(arr).value);
      StoreAccount(idx, username, password);
      if dir != null {
        dir.ownerid := ownerid;
      }
      return 0;
    }

    /**
     * sys_deleteUser.  Only root may delete, and never the name "root"; the
     * store is reloaded; the first slot whose decoded name passes the lookup
     * test is chosen, and when that slot is not root's, both of its fields
     * are covered with sentinels and the store is written back.
     */
    method DeleteUser(username: CString) returns (r: int)
      requires Valid()
      modifies accounts, this`accountFile
      ensures !IsRoot(currentUser) || IsRoot(username) || old(accountFile).None? ==>
        r == -1 && accounts[..] == old(accounts[..]) && accountFile == old(accountFile)
      ensures IsRoot(currentUser) && !IsRoot(username) && old(accountFile).Some? ==>
        var arr := ReadAtStart(old(accounts[..]), old(accountFile).value);
        var found := FindByName(arr, username);
        (found.None? || found.value == 0 ==>
          r == -1 && accounts[..] == arr && accountFile == old(accountFile))
        && (found.Some? && found.value != 0 ==>
          r == 0 && accounts[..] == Blanked(arr, SlotStart(found.value))
          && accountFile == Some(WriteAtStart(old(accountFile).value, accounts[..])))
    {
      if !IsRoot(currentUser) {
        return -1;
      }
      if IsRoot(username) {
        return -1;
      }
      if accountFile.None? {
        return -1;
      }
      ReadAccounts(accountFile.value);
      var idx := ScanByName(accounts[..], username);
      if idx == 0 {
        return -1;
      }

      var star := Stars(FIELD_SIZE);
      EncodeKernel(accounts, star, idx);
      EncodeKernel(accounts, star, idx + FIELD_SIZE);
      WriteAccounts();
      return 0;
    }

    /**
     * sys_chmod.  The store is reloaded; when the path names an inode, the
     * owner name is decoded from the store at the inode's ownerid, and the
     * mode is replaced only if the caller is root or agrees with that name
     * on sizeof(currentUser) bytes.
     */
    method Chmod(cd: Inode?, mode: int) returns (r: int)
      requires Valid()
      requires cd != null ==> 0 <= cd.ownerid && cd.ownerid + FIELD_SIZE <= STORE_SIZE
      modifies accounts, cd
      ensures old(accountFile).None? ==>
        r == -1 && accounts[..] == old(accounts[..]) && (cd != null ==> cd.per == old(cd.per))
      ensures old(accountFile).Some? ==>
        accounts[..] == ReadAtStart(old(accounts[..]), old(accountFile).value)
      ensures old(accountFile).Some? && cd == null ==> r == -1
      ensures old(accountFile).Some? && cd != null ==>
        var owner := Decoded(accounts[..], old(cd.ownerid));
        (r == 0 <==> (IsRoot(currentUser) || StrnEq(currentUser, owner, currentUserSize)))
        && (r == 0 ==> cd.per == mode)
        && (r != 0 ==> r == -1 && cd.per == old(cd.per))
      ensures cd != null ==> cd.kind == old(cd.kind) && cd.ownerid == old(cd.ownerid) && cd.nlink == old(cd.nlink)
    {
      if accountFile.None? {
        return -1;
      }
      ReadAccounts(accountFile.value);
      if cd == null {
        return -1;
      }
      var name := DecodeField(accounts[..], cd.ownerid);
      if !IsRoot(currentUser) && !StrnEq(currentUser, name, currentUserSize) {
        return -1;
      }
      cd.per := mode;
      return 0;
    }
  }

  // ---------------------------------------------------------------- properties of the store

  /**
   * The store's padding convention: a slot whose username field is all
   * sentinel has an all-sentinel password field too.  Free slots are
   * recognised by the username field alone, so this is what keeps a free
   * slot from carrying a stale password.
   */
  predicate PaddingConsistent(arr: seq<char>)
    requires |arr| == STORE_SIZE
  {
    forall s :: 0 <= s < SLOTS && SlotFree(arr, s) ==> IsBlank(arr, SlotStart(s) + FIELD_SIZE)
  }

  /** Two stores that agree on a field decode it alike. */
  lemma DecodedOnlyReadsField(a: seq<char>, b: seq<char>, start: nat)
    requires start + FIELD_SIZE <= |a| && start + FIELD_SIZE <= |b|
    requires a[start..start + FIELD_SIZE] == b[start..start + FIELD_SIZE]
    ensures Decoded(a, start) == Decoded(b, start)
  {
    var k := FieldLen(a, start, FIELD_SIZE);
    FieldLenUnique(b, start, FIELD_SIZE, k);
    assert a[start..start + k] == a[start..start + FIELD_SIZE][..k];
    assert b[start..start + k] == b[start..start + FIELD_SIZE][..k];
  }

  /** Inserting into slot k leaves every other slot's bytes as they were. */
  lemma InsertedKeepsOtherSlots(arr: seq<char>, k: nat, username: CString, password: CString, t: nat)
    requires |arr| == STORE_SIZE && k < SLOTS && t < SLOTS && t != k
    requires |username| <= ACCOUNT_SIZE && |password| <= FIELD_SIZE
    ensures var w := Inserted(arr, SlotStart(k), username, password);
      w[SlotStart(t)..SlotStart(t) + ACCOUNT_SIZE] == arr[SlotStart(t)..SlotStart(t) + ACCOUNT_SIZE]
  {
    var w := Inserted(arr, SlotStart(k), username, password);
    forall j | SlotStart(t) <= j < SlotStart(t) + ACCOUNT_SIZE ensures w[j] == arr[j] {
      assert j < SlotStart(k) || SlotStart(k) + ACCOUNT_SIZE <= j;
    }
  }

  /**
   * Owner linkage: after addUser fills the free slot with a name and a
   * password that hold no sentinel, the slot's offset -- the ownerid given
   * to the user's directory -- decodes to the name, and the password field
   * decodes to the password.
   */
  lemma AddedAccountDecodes(arr: seq<char>, username: CString, password: CString)
    requires |arr| == STORE_SIZE && PaddingConsistent(arr) && FreeSlot(arr).Some?
    requires |username| <= FIELD_SIZE && |password| <= FIELD_SIZE
    requires SENTINEL !in username && SENTINEL !in password
    ensures var idx := SlotStart(FreeSlot(arr).value);
      var w := Inserted(arr, idx, username, password);
      Decoded(w, idx) == username && Decoded(w, idx + FIELD_SIZE) == password
  {
    var k := FreeSlot(arr).value;
    assert IsBlank(arr, SlotStart(k) + FIELD_SIZE);
    SlotDecodes(arr, k, username, password);
  }

  /** Both fields of a blank slot, once filled, decode to what was written. */
  lemma SlotDecodes(arr: seq<char>, k: nat, username: CString, password: CString)
    requires |arr| == STORE_SIZE && k < SLOTS
    requires IsBlank(arr, SlotStart(k)) && IsBlank(arr, SlotStart(k) + FIELD_SIZE)
    requires |username| <= FIELD_SIZE && |password| <= FIELD_SIZE
    requires SENTINEL !in username && SENTINEL !in password
    ensures var w := Inserted(arr, SlotStart(k), username, password);
      Decoded(w, SlotStart(k)) == username && Decoded(w, SlotStart(k) + FIELD_SIZE) == password
  {
    var idx := SlotStart(k);
    var w := Inserted(arr, idx, username, password);
    FieldHolds(w, idx, username);
    FieldHolds(w, idx + FIELD_SIZE, password);
  }

  /** Filling a free slot with a name that does not start with a sentinel keeps the padding convention. */
  lemma InsertKeepsPadding(arr: seq<char>, username: CString, password: CString)
    requires |arr| == STORE_SIZE && PaddingConsistent(arr) && FreeSlot(arr).Some?
    requires 1 <= |username| <= ACCOUNT_SIZE && |password| <= FIELD_SIZE
    requires username[0] != SENTINEL
    ensures PaddingConsistent(Inserted(arr, SlotStart(FreeSlot(arr).value), username, password))
  {
    var k := FreeSlot(arr).value;
    var w := Inserted(arr, SlotStart(k), username, password);
    assert !SlotFree(w, k) by {
      assert w[SlotStart(k)] == username[0];
    }
    forall t | 0 <= t < SLOTS && SlotFree(w, t) ensures IsBlank(w, SlotStart(t) + FIELD_SIZE) {
      InsertedKeepsOtherSlots(arr, k, username, password, t);
      assert forall j :: SlotStart(t) <= j < SlotStart(t) + ACCOUNT_SIZE ==>
        w[j] == w[SlotStart(t)..SlotStart(t) + ACCOUNT_SIZE][j - SlotStart(t)];
      assert SlotFree(arr, t);
    }
  }

  /**
   * The empty name breaks the convention: addUser("", p) writes only the
   * password, so the slot still looks free, and the next addUser picks the
   * same slot again.
   */
  lemma EmptyNameLeavesSlotFree(arr: seq<char>, password: CString)
    requires |arr| == STORE_SIZE && FreeSlot(arr).Some?
    requires 1 <= |password| <= FIELD_SIZE && password[0] != SENTINEL
    ensures var w := Inserted(arr, SlotStart(FreeSlot(arr).value), [], password);
      !PaddingConsistent(w) && FreeSlot(w) == FreeSlot(arr)
  {
    var k := FreeSlot(arr).value;
    var w := Inserted(arr, SlotStart(k), [], password);
    assert SlotFree(w, k);
    assert w[SlotStart(k) + FIELD_SIZE] == password[0];
    forall t | 1 <= t < k ensures !SlotFree(w, t) {
      InsertedKeepsOtherSlots(arr, k, [], password, t);
      assert !SlotFree(arr, t);
      var j :| SlotStart(t) <= j < SlotStart(t) + FIELD_SIZE && arr[j] != SENTINEL;
      assert w[j] == w[SlotStart(t)..SlotStart(t) + ACCOUNT_SIZE][j - SlotStart(t)];
    }
  }

  /**
   * So does a name made only of sentinels (such as "*"): its bytes look like
   * the padding they overwrite, so the slot still looks free while its
   * password field no longer does.
   */
  lemma SentinelNameLeavesSlotFree(arr: seq<char>, username: CString, password: CString)
    requires |arr| == STORE_SIZE && FreeSlot(arr).Some?
    requires |username| <= FIELD_SIZE && forall j :: 0 <= j < |username| ==> username[j] == SENTINEL
    requires 1 <= |password| <= FIELD_SIZE && password[0] != SENTINEL
    ensures var w := Inserted(arr, SlotStart(FreeSlot(arr).value), username, password);
      !PaddingConsistent(w) && FreeSlot(w) == FreeSlot(arr)
  {
    var k := FreeSlot(arr).value;
    var w := Inserted(arr, SlotStart(k), username, password);
    assert SlotFree(w, k) by {
      forall j | SlotStart(k) <= j < SlotStart(k) + FIELD_SIZE ensures w[j] == SENTINEL {
        if j < SlotStart(k) + |username| {
          assert w[j] == username[j - SlotStart(k)];
        } else {
          assert w[j] == arr[j];
        }
      }
    }
    assert w[SlotStart(k) + FIELD_SIZE] == password[0];
    forall t | 1 <= t < k ensures !SlotFree(w, t) {
      InsertedKeepsOtherFields(arr, k, username, password, t);
    }
  }

  /** deleteUser undoes addUser: blanking the slot an account was added to gives back the store. */
  lemma DeleteUndoesAdd(arr: seq<char>, username: CString, password: CString)
    requires |arr| == STORE_SIZE && PaddingConsistent(arr) && FreeSlot(arr).Some?
    requires |username| <= FIELD_SIZE && |password| <= FIELD_SIZE
    ensures var idx := SlotStart(FreeSlot(arr).value);
      Blanked(Inserted(arr, idx, username, password), idx) == arr
  {
    var idx := SlotStart(FreeSlot(arr).value);
    var b := Blanked(Inserted(arr, idx, username, password), idx);
    assert IsBlank(arr, idx) && IsBlank(arr, idx + FIELD_SIZE);
    forall j | 0 <= j < STORE_SIZE ensures b[j] == arr[j] {
      if idx <= j < idx + ACCOUNT_SIZE {
        assert b[j] == SENTINEL;
      }
    }
  }

  /**
   * deleteUser finds the account addUser just stored, for a name of at
   * least sizeof(char *) characters: no earlier slot passed the duplicate
   * test, so none agrees with it on those bytes.
   */
  lemma DeleteFindsAddedSlot(arr: seq<char>, username: CString, password: CString)
    requires |arr| == STORE_SIZE && PaddingConsistent(arr) && FreeSlot(arr).Some? && !HasDuplicate(arr, username)
    requires PW <= |username| <= FIELD_SIZE && |password| <= FIELD_SIZE
    requires SENTINEL !in username && SENTINEL !in password
    ensures var k := FreeSlot(arr).value;
      FindByName(Inserted(arr, SlotStart(k), username, password), username) == Some(k)
  {
    var k := FreeSlot(arr).value;
    var w := Inserted(arr, SlotStart(k), username, password);
    AddedAccountDecodes(arr, username, password);
    assert DecodedNameClash(w, k, username);
    NoEarlierNameClash(arr, k, username, password);
    FindByNameAt(w, k, username);
  }

  /** Without a duplicate before the add, no slot below the new one answers deleteUser's lookup. */
  lemma NoEarlierNameClash(arr: seq<char>, k: nat, username: CString, password: CString)
    requires |arr| == STORE_SIZE && k < SLOTS && !HasDuplicate(arr, username)
    requires PW <= |username| <= FIELD_SIZE && |password| <= FIELD_SIZE
    ensures forall t :: 0 <= t < k ==> !DecodedNameClash(Inserted(arr, SlotStart(k), username, password), t, username)
  {
    forall t | 0 <= t < k ensures !DecodedNameClash(Inserted(arr, SlotStart(k), username, password), t, username) {
      InsertedKeepsOtherFields(arr, k, username, password, t);
      DecodedClashIsRaw(arr, t, username);
      assert !RawNameClash(arr, t, username);
    }
  }

  /** The lookup lands on a slot that answers it when no lower slot does. */
  lemma FindByNameAt(arr: seq<char>, k: nat, username: CString)
    requires |arr| == STORE_SIZE && k < SLOTS && DecodedNameClash(arr, k, username)
    requires forall t :: 0 <= t < k ==> !DecodedNameClash(arr, t, username)
    ensures FindByName(arr, username) == Some(k)
  {
    var flags := NameClashes(arr, username);
    assert flags[k];
    assert forall t :: 0 <= t < k ==> !flags[t];
    FirstSetAt(flags, 0, k);
  }

  /** For a name of at least sizeof(char *) characters, deleteUser's test on a slot implies addUser's. */
  lemma DecodedClashIsRaw(arr: seq<char>, t: nat, username: CString)
    requires |arr| == STORE_SIZE && t < SLOTS && PW <= |username|
    ensures DecodedNameClash(arr, t, username) ==> RawNameClash(arr, t, username)
  {
    var d := Decoded(arr, SlotStart(t));
    if DecodedNameClash(arr, t, username) {
      assert PW <= |d| by {
        if |d| < PW {
          StrnEqWide(d, username, PW);
        }
      }
      StrnEqNarrow(d, username, PW);
      assert arr[SlotStart(t)..SlotStart(t) + PW] == username[..PW] by {
        forall j | 0 <= j < PW ensures arr[SlotStart(t) + j] == username[j] {
          assert d[j] == FieldBytes(arr, SlotStart(t), FIELD_SIZE)[j];
        }
      }
      ClashOnLeadingBytes(arr, t, username);
    }
  }

  /**
   * A name shorter than sizeof(char *) can be added twice, and deleteUser
   * then finds the older copy: the slot it blanks is not the one the
   * second addUser filled.
   */
  lemma ShortNameDeleteHitsEarlierCopy(arr: seq<char>, username: CString, p1: CString, p2: CString)
    requires |arr| == STORE_SIZE && PaddingConsistent(arr) && FreeSlot(arr).Some? && !HasDuplicate(arr, username)
    requires 1 <= |username| < PW && SENTINEL !in username
    requires |p1| <= FIELD_SIZE && SENTINEL !in p1 && |p2| <= FIELD_SIZE
    requires FreeSlot(Inserted(arr, SlotStart(FreeSlot(arr).value), username, p1)).Some?
    ensures var k1 := FreeSlot(arr).value;
      var a1 := Inserted(arr, SlotStart(k1), username, p1);
      var k2 := FreeSlot(a1).value;
      var found := FindByName(Inserted(a1, SlotStart(k2), username, p2), username);
      && !HasDuplicate(a1, username)
      && k1 < k2
      && found.Some? && found.value <= k1
  {
    var k1 := FreeSlot(arr).value;
    var a1 := Inserted(arr, SlotStart(k1), username, p1);
    ShortNameEscapesDuplicateTest(arr, username, p1);
    AddedAccountDecodes(arr, username, p1);
    SecondAddLandsLater(arr, username, p1);
    var k2 := FreeSlot(a1).value;
    InsertedKeepsOtherFields(a1, k2, username, p2, k1);
    assert DecodedNameClash(Inserted(a1, SlotStart(k2), username, p2), k1, username);
  }

  /** After a non-empty name is stored, the next free slot lies beyond it. */
  lemma SecondAddLandsLater(arr: seq<char>, username: CString, password: CString)
    requires |arr| == STORE_SIZE && FreeSlot(arr).Some?
    requires 1 <= |username| <= FIELD_SIZE && SENTINEL !in username && |password| <= FIELD_SIZE
    ensures var k := FreeSlot(arr).value;
      var w := Inserted(arr, SlotStart(k), username, password);
      FreeSlot(w).Some? ==> k < FreeSlot(w).value
  {
    var k := FreeSlot(arr).value;
    var w := Inserted(arr, SlotStart(k), username, password);
    assert !SlotFree(w, k) by {
      assert w[SlotStart(k)] == username[0] && username[0] in username;
    }
    forall t | 1 <= t < k ensures !SlotFree(w, t) {
      InsertedKeepsOtherFields(arr, k, username, password, t);
    }
  }

  /** Storing an account leaves every other slot's name field, its decoding and its freeness as they were. */
  lemma InsertedKeepsOtherFields(arr: seq<char>, k: nat, username: CString, password: CString, t: nat)
    requires |arr| == STORE_SIZE && k < SLOTS && t < SLOTS && t != k
    requires |username| <= ACCOUNT_SIZE && |password| <= FIELD_SIZE
    ensures var w := Inserted(arr, SlotStart(k), username, password);
      && w[SlotStart(t)..SlotStart(t) + FIELD_SIZE] == arr[SlotStart(t)..SlotStart(t) + FIELD_SIZE]
      && Decoded(w, SlotStart(t)) == Decoded(arr, SlotStart(t))
      && SlotFree(w, t) == SlotFree(arr, t)
  {
    var w := Inserted(arr, SlotStart(k), username, password);
    InsertedKeepsOtherSlots(arr, k, username, password, t);
    SameSlotSameName(w, arr, t);
  }

  /** Two stores that agree on slot t's 30 bytes agree on its name field, its decoding and its freeness. */
  lemma SameSlotSameName(a: seq<char>, b: seq<char>, t: nat)
    requires |a| == STORE_SIZE && |b| == STORE_SIZE && t < SLOTS
    requires a[SlotStart(t)..SlotStart(t) + ACCOUNT_SIZE] == b[SlotStart(t)..SlotStart(t) + ACCOUNT_SIZE]
    ensures a[SlotStart(t)..SlotStart(t) + FIELD_SIZE] == b[SlotStart(t)..SlotStart(t) + FIELD_SIZE]
    ensures Decoded(a, SlotStart(t)) == Decoded(b, SlotStart(t))
    ensures SlotFree(a, t) == SlotFree(b, t)
  {
    var st := SlotStart(t);
    forall j | st <= j < st + FIELD_SIZE ensures a[j] == b[j] {
      assert a[j] == a[st..st + ACCOUNT_SIZE][j - st] && b[j] == b[st..st + ACCOUNT_SIZE][j - st];
    }
    assert a[st..st + FIELD_SIZE] == b[st..st + FIELD_SIZE];
    DecodedOnlyReadsField(a, b, st);
  }

  /** Blanking slot k puts a sentinel in each of its 30 bytes and leaves every other byte alone. */
  lemma BlankedBytes(arr: seq<char>, k: nat)
    requires |arr| == STORE_SIZE && k < SLOTS
    ensures var w := Blanked(arr, SlotStart(k));
      |w| == STORE_SIZE
      && forall j :: 0 <= j < STORE_SIZE ==>
           w[j] == if SlotStart(k) <= j < SlotStart(k) + ACCOUNT_SIZE then SENTINEL else arr[j]
  {
  }

  /**
   * deleteUser frees its slot: both fields of the account become blank, the
   * padding convention is kept, nothing outside the account's 30 bytes
   * changes, and the next addUser finds a free slot no later than this one.
   */
  lemma DeleteFreesSlot(arr: seq<char>, k: nat)
    requires |arr| == STORE_SIZE && PaddingConsistent(arr) && 1 <= k < SLOTS
    ensures var w := Blanked(arr, SlotStart(k));
      && Decoded(w, SlotStart(k)) == [] && Decoded(w, SlotStart(k) + FIELD_SIZE) == []
      && PaddingConsistent(w)
      && (forall j :: 0 <= j < STORE_SIZE && !(SlotStart(k) <= j < SlotStart(k) + ACCOUNT_SIZE) ==> w[j] == arr[j])
      && FreeSlot(w).Some? && FreeSlot(w).value <= k
  {
    var w := Blanked(arr, SlotStart(k));
    BlankedBytes(arr, k);
    assert SlotFree(w, k);
    BlankDecodesEmpty(w, SlotStart(k));
    BlankDecodesEmpty(w, SlotStart(k) + FIELD_SIZE);
    forall t | 0 <= t < SLOTS && SlotFree(w, t) ensures IsBlank(w, SlotStart(t) + FIELD_SIZE) {
      if t != k {
        assert SlotFree(arr, t);
      }
    }
  }

  /** Equal leading bytes: a slot whose first sizeof(char *) raw bytes spell the start of a long enough name fails addUser's duplicate test for it. */
  lemma ClashOnLeadingBytes(arr: seq<char>, t: nat, username: CString)
    requires |arr| == STORE_SIZE && t < SLOTS && PW <= |username|
    requires arr[SlotStart(t)..SlotStart(t) + PW] == username[..PW]
    ensures RawNameClash(arr, t, username)
  {
    var field := arr[SlotStart(t)..SlotStart(t) + FIELD_SIZE];
    assert field[..PW] == username[..PW];
    assert '\0' !in field[..PW] by {
      forall j | 0 <= j < PW ensures field[..PW][j] != '\0' { assert username[j] in username; }
    }
    UntilNulKeepsPrefix(field, PW);
    StrnEqNarrow(UntilNul(field), username, PW);
  }

  /** Adding a name of at least sizeof(char *) characters makes a second add of the same name fail. */
  lemma ReAddRejected(arr: seq<char>, k: nat, username: CString, password: CString)
    requires |arr| == STORE_SIZE && k < SLOTS
    requires PW <= |username| <= ACCOUNT_SIZE && |password| <= FIELD_SIZE
    ensures HasDuplicate(Inserted(arr, SlotStart(k), username, password), username)
  {
    var w := Inserted(arr, SlotStart(k), username, password);
    assert w[SlotStart(k)..SlotStart(k) + PW] == username[..PW];
    ClashOnLeadingBytes(w, k, username);
  }

  /**
   * A name shorter than sizeof(char *) slips past the duplicate test: its
   * slot reads back with a sentinel where the comparison expects the NUL, so
   * when no slot clashed before, none clashes after the add either, and the
   * same name can be added again.
   */
  lemma ShortNameEscapesDuplicateTest(arr: seq<char>, username: CString, password: CString)
    requires |arr| == STORE_SIZE && FreeSlot(arr).Some? && !HasDuplicate(arr, username)
    requires |username| < PW && SENTINEL !in username && |password| <= FIELD_SIZE
    ensures !HasDuplicate(Inserted(arr, SlotStart(FreeSlot(arr).value), username, password), username)
  {
    var k := FreeSlot(arr).value;
    assert SlotFree(arr, k);
    InsertedShortNameNoClash(arr, k, username, password);
  }

  /** ShortNameEscapesDuplicateTest for any slot whose name field is blank. */
  lemma InsertedShortNameNoClash(arr: seq<char>, k: nat, username: CString, password: CString)
    requires |arr| == STORE_SIZE && k < SLOTS && IsBlank(arr, SlotStart(k)) && !HasDuplicate(arr, username)
    requires |username| < PW && |password| <= FIELD_SIZE
    ensures !HasDuplicate(Inserted(arr, SlotStart(k), username, password), username)
  {
    var w := Inserted(arr, SlotStart(k), username, password);
    forall t | 0 <= t < SLOTS ensures !RawNameClash(w, t, username) {
      var field := w[SlotStart(t)..SlotStart(t) + FIELD_SIZE];
      if t == k {
        assert field == username + Stars(FIELD_SIZE - |username|) by {
          forall j | 0 <= j < FIELD_SIZE ensures field[j] == (username + Stars(FIELD_SIZE - |username|))[j] {
            assert field[j] == w[SlotStart(k) + j];
          }
        }
        ShortFieldEscapes(field, username);
      } else {
        InsertedKeepsOtherSlots(arr, k, username, password, t);
        assert field == arr[SlotStart(t)..SlotStart(t) + FIELD_SIZE];
        assert !RawNameClash(arr, t, username);
      }
    }
  }

  /** A raw field holding a name shorter than PW, then sentinels, fails the PW-byte comparison with that name. */
  lemma ShortFieldEscapes(field: seq<char>, username: CString)
    requires |username| < PW && field == username + Stars(FIELD_SIZE - |username|)
    ensures !StrnEq(UntilNul(field), username, PW)
  {
    assert '\0' !in Stars(FIELD_SIZE - |username|);
    UntilNulOfCString(Stars(FIELD_SIZE - |username|));
    UntilNulAppend(username, Stars(FIELD_SIZE - |username|));
    assert (UntilNul(field) + ['\0'])[|username|] == SENTINEL;
    assert (username + ['\0'])[|username|] == '\0';
    assert Prefix(UntilNul(field) + ['\0'], PW)[|username|] != Prefix(username + ['\0'], PW)[|username|];
  }

  /**
   * Slot 0 shadows deleteUser: any name that starts with "root" but is
   * longer is found at root's slot first, so deleteUser refuses it even when
   * it is also stored in a later slot.
   */
  lemma RootPrefixedNamesUndeletable(arr: seq<char>, username: CString)
    requires |arr| == STORE_SIZE && Decoded(arr, 0) == "root"
    requires PW <= |username| && username[..PW] == "root"
    ensures FindByName(arr, username) == Some(0)
  {
    StrnEqNarrow(Decoded(arr, 0), username, PW);
    assert DecodedNameClash(arr, 0, username);
  }
}
