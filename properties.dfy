/**
 * Properties that tie the parts together: what an account added by the
 * kernel means to the login program and to the permission decision, what
 * the boot store allows, and how ls's permission column reads the same bits
 * checkPermission tests.
 */
module AccountProperties {
  import opened CStrings
  import opened Codec
  import opened KernelAccounts
  import opened Permission
  import opened Login
  import opened Listing

  /**
   * An account addUser stores -- name and password without sentinels, at
   * most FIELD_SIZE characters each -- is matched by the login program's
   * scan once the store has been loaded (it loads only at start-up).
   */
  lemma AddedAccountMatches(arr: seq<char>, username: CString, password: CString)
    requires |arr| == STORE_SIZE && PaddingConsistent(arr) && FreeSlot(arr).Some?
    requires |username| <= FIELD_SIZE && |password| <= FIELD_SIZE
    requires SENTINEL !in username && SENTINEL !in password
    ensures var k := FreeSlot(arr).value;
      var m := FirstMatch(Inserted(arr, SlotStart(k), username, password), username, password);
      m.Some? && m.value <= k
  {
    var k := FreeSlot(arr).value;
    AddedAccountDecodes(arr, username, password);
    assert CredentialsMatch(Inserted(arr, SlotStart(k), username, password), k, username, password);
  }

  /**
   * An added account whose name and password have at most LINE_SIZE - 2
   * characters and no line break can be typed: each followed by its newline
   * is a line gets can deliver into its 15-byte buffer, and what is left
   * after the newline is stripped logs in.
   */
  lemma AddedUserCanLogIn(arr: seq<char>, username: CString, password: CString)
    requires |arr| == STORE_SIZE && PaddingConsistent(arr) && FreeSlot(arr).Some?
    requires |username| <= LINE_SIZE - 2 && |password| <= LINE_SIZE - 2
    requires SENTINEL !in username && SENTINEL !in password
    requires '\n' !in username && '\r' !in username && '\n' !in password && '\r' !in password
    ensures var userLine, passLine := username + "\n", password + "\n";
      var k := FreeSlot(arr).value;
      && 1 <= |userLine| && IsGetsLine(userLine) && 1 <= |passLine| && IsGetsLine(passLine)
      && userLine[..|userLine| - 1] == username && passLine[..|passLine| - 1] == password
      && FirstMatch(Inserted(arr, SlotStart(k), username, password), username, password).Some?
  {
    var userLine, passLine := username + "\n", password + "\n";
    assert userLine[..|userLine| - 1] == username && passLine[..|passLine| - 1] == password;
    AddedAccountMatches(arr, username, password);
  }

  /**
   * An added account whose name or password has more than LINE_SIZE - 2
   * characters can never log in through its own slot: a line gets delivers
   * into the 15-byte buffer keeps at most 14 characters, and one of them is
   * stripped.
   */
  lemma OverlongAccountUnreachable(arr: seq<char>, username: CString, password: CString,
                                   userLine: CString, passLine: CString)
    requires |arr| == STORE_SIZE && PaddingConsistent(arr) && FreeSlot(arr).Some?
    requires |username| <= FIELD_SIZE && |password| <= FIELD_SIZE
    requires SENTINEL !in username && SENTINEL !in password
    requires LINE_SIZE - 2 < |username| || LINE_SIZE - 2 < |password|
    requires 1 <= |userLine| < LINE_SIZE && 1 <= |passLine| < LINE_SIZE
    ensures var k := FreeSlot(arr).value;
      !CredentialsMatch(Inserted(arr, SlotStart(k), username, password), k,
                        userLine[..|userLine| - 1], passLine[..|passLine| - 1])
  {
    AddedAccountDecodes(arr, username, password);
  }

  /**
   * addUser accepts any characters, but an account whose name or password
   * holds a newline or a carriage return can never log in through its own
   * slot: gets ends the typed line at the first such character.
   */
  lemma LineBreakAccountUnreachable(arr: seq<char>, username: CString, password: CString,
                                    userLine: CString, passLine: CString)
    requires |arr| == STORE_SIZE && PaddingConsistent(arr) && FreeSlot(arr).Some?
    requires |username| <= FIELD_SIZE && |password| <= FIELD_SIZE
    requires SENTINEL !in username && SENTINEL !in password
    requires '\n' in username || '\r' in username || '\n' in password || '\r' in password
    requires 1 <= |userLine| && IsGetsLine(userLine) && 1 <= |passLine| && IsGetsLine(passLine)
    ensures var k := FreeSlot(arr).value;
      !CredentialsMatch(Inserted(arr, SlotStart(k), username, password), k,
                        userLine[..|userLine| - 1], passLine[..|passLine| - 1])
  {
    AddedAccountDecodes(arr, username, password);
    StrippedLineHasNoBreak(userLine);
    StrippedLineHasNoBreak(passLine);
  }

  /**
   * The directory addUser creates is judged by its owner bits for the new
   * user and for root, and by its other bits for everyone else -- except a
   * longer name that extends a full-width FIELD_SIZE-character user name,
   * which the bounded comparison cannot tell apart from it.
   */
  lemma NewHomeOwnedByNewUser(arr: seq<char>, username: CString, password: CString, caller: CString)
    requires |arr| == STORE_SIZE && PaddingConsistent(arr) && FreeSlot(arr).Some?
    requires |username| <= FIELD_SIZE && |password| <= FIELD_SIZE
    requires SENTINEL !in username && SENTINEL !in password
    ensures var idx := SlotStart(FreeSlot(arr).value);
      var w := Inserted(arr, idx, username, password);
      OwnerTier(Decoded(w, idx), caller) <==>
        || caller == username || caller == "root"
        || (|username| == FIELD_SIZE && |caller| > FIELD_SIZE && caller[..FIELD_SIZE] == username)
  {
    var idx := SlotStart(FreeSlot(arr).value);
    var w := Inserted(arr, idx, username, password);
    AddedAccountDecodes(arr, username, password);
    OwnerTierMeaning(Decoded(w, idx), caller);
  }

  /** The boot store: its padding is consistent, slot 1 is the first free one, and "root" cannot be added again. */
  lemma BootStoreShape()
    ensures |InitialStore()| == STORE_SIZE
    ensures PaddingConsistent(InitialStore())
    ensures FreeSlot(InitialStore()) == Some(1)
    ensures HasDuplicate(InitialStore(), "root")
  {
    BootStoreSlots();
    BootStoreRootClash();
  }

  /** Slot 0 of the boot store is taken and slot 1 is the first free one, password blank. */
  lemma BootStoreSlots()
    ensures |InitialStore()| == STORE_SIZE
    ensures PaddingConsistent(InitialStore()) && FreeSlot(InitialStore()) == Some(1)
  {
    InitialStoreLayout();
    var w := InitialStore();
    assert !SlotFree(w, 0) by {
      // the field decodes to "root", so its first byte is 'r', not a sentinel
      assert Decoded(w, 0)[0] == FieldBytes(w, 0, FIELD_SIZE)[0] == w[0];
    }
    assert SlotFree(w, 1);
  }

  /** Slot 0 of the boot store begins with "root", so adding "root" again is caught. */
  lemma BootStoreRootClash()
    ensures |InitialStore()| == STORE_SIZE && HasDuplicate(InitialStore(), "root")
  {
    InitialStoreLayout();
    var w := InitialStore();
    assert w[..PW] == "root" by {
      assert Decoded(w, 0) == "root";
      assert FieldBytes(w, 0, FIELD_SIZE)[..PW] == w[..PW];
    }
    ClashOnLeadingBytes(w, 0, "root");
  }

  /** On the boot store, any longer name starting with "root" is one deleteUser can never remove. */
  lemma BootStoreShadowsRootPrefixedNames(username: CString)
    requires PW <= |username| && username[..PW] == "root"
    ensures FindByName(InitialStore(), username) == Some(0)
  {
    InitialStoreLayout();
    RootPrefixedNamesUndeletable(InitialStore(), username);
  }

  /**
   * ls's column shows the bits checkPermission tests: for a permission word
   * in range, a caller judged by the owner bits may read, write or execute
   * exactly when the first, second or third letter is shown, and any other
   * caller exactly when the fourth, fifth or sixth is.
   */
  lemma ColumnMatchesDecision(accounts: seq<char>, ownerid: int, per: int, caller: CString,
                              mb: ModeBits, om: OpenModes)
    requires |accounts| == STORE_SIZE && 0 <= ownerid && ownerid + FIELD_SIZE <= STORE_SIZE
    requires ValidModeBits(mb) && DistinctModes(om) && 0 <= per <= 63
    ensures var col := PermString(per, mb);
      var o := if OwnerTier(Decoded(accounts, ownerid), caller) then 0 else 3;
      && (CheckPermission(accounts, ownerid, per, caller, om.rdonly, mb, om) == 1 <==> col[o] == 'r')
      && (CheckPermission(accounts, ownerid, per, caller, om.wronly, mb, om) == 1 <==> col[o + 1] == 'w')
      && (CheckPermission(accounts, ownerid, per, caller, om.execute, mb, om) == 1 <==> col[o + 2] == 'x')
  {
  }

  /**
   * A mode set by chmod above 63 opens the inode to every caller for every
   * request, while ls still shows only its low six bits.
   */
  lemma OutOfRangeModeOpensAll(accounts: seq<char>, ownerid: int, mode: int, caller: CString,
                               request: int, mb: ModeBits, om: OpenModes)
    requires |accounts| == STORE_SIZE && 0 <= ownerid && ownerid + FIELD_SIZE <= STORE_SIZE
    requires ValidModeBits(mb) && DistinctModes(om) && 63 < mode < 128
    ensures CheckPermission(accounts, ownerid, mode, caller, request, mb, om) == 1
    ensures PermString(mode, mb) == PermString(mode - 64, mb)
  {
    PermStringIgnoresHighBits(mode - 64, 1, mb);
  }
}
