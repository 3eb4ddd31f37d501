/**
 * The permission decision the kernel takes before open, unlink and chdir
 * (checkPermission), and the permission gates at those call sites.  An
 * object carries a permission word `per` (six significant bits: owner and
 * other, each read / write / execute) and the byte offset `ownerid` of its
 * owner's slot in the account store.
 */
module Permission {
  import opened CStrings
  import opened Codec

  /** The values of MODE_RUSR, MODE_WUSR, MODE_XUSR, MODE_ROTH, MODE_WOTH, MODE_XOTH. */
  datatype ModeBits = ModeBits(rusr: int, wusr: int, xusr: int, roth: int, woth: int, xoth: int)

  predicate IsSingleBit(b: int)
  {
    b == 1 || b == 2 || b == 4 || b == 8 || b == 16 || b == 32
  }

  /** The sum the source compares per against: MODE_ROTH + MODE_RUSR + MODE_WOTH + MODE_WUSR + MODE_XOTH + MODE_XUSR. */
  function ModeSum(mb: ModeBits): int
  {
    mb.roth + mb.rusr + mb.woth + mb.wusr + mb.xoth + mb.xusr
  }

  /** The MODE_* constants are six distinct single bits, so they sum to 63. */
  predicate ValidModeBits(mb: ModeBits)
  {
    && IsSingleBit(mb.rusr) && IsSingleBit(mb.wusr) && IsSingleBit(mb.xusr)
    && IsSingleBit(mb.roth) && IsSingleBit(mb.woth) && IsSingleBit(mb.xoth)
    && mb.rusr != mb.wusr && mb.rusr != mb.xusr && mb.rusr != mb.roth && mb.rusr != mb.woth && mb.rusr != mb.xoth
    && mb.wusr != mb.xusr && mb.wusr != mb.roth && mb.wusr != mb.woth && mb.wusr != mb.xoth
    && mb.xusr != mb.roth && mb.xusr != mb.woth && mb.xusr != mb.xoth
    && mb.roth != mb.woth && mb.roth != mb.xoth
    && mb.woth != mb.xoth
    && ModeSum(mb) == 63
  }

  /**
   * `v & b` is non-zero, for a single bit b: bit log2(b) of v in two's
   * complement (Dafny's division rounds down for a positive divisor).
   */
  predicate HasBit(v: int, b: int)
    requires b > 0
  {
    (v / b) % 2 == 1
  }

  /** The values of O_RDONLY, O_WRONLY, O_RDWR and EXECUTE, four distinct request codes. */
  datatype OpenModes = OpenModes(rdonly: int, wronly: int, rdwr: int, execute: int)

  predicate DistinctModes(om: OpenModes)
  {
    om.rdonly != om.wronly && om.rdonly != om.rdwr && om.rdonly != om.execute
    && om.wronly != om.rdwr && om.wronly != om.execute && om.rdwr != om.execute
  }

  /** The kind of access a request code asks for. */
  datatype Access = Read | Write | Exec | Unrecognised

  /** O_RDONLY and O_RDWR ask to read, O_WRONLY to write, EXECUTE to execute; any other code is unrecognised. */
  function AccessOf(mode: int, om: OpenModes): Access
  {
    if mode == om.rdonly || mode == om.rdwr then Read
    else if mode == om.wronly then Write
    else if mode == om.execute then Exec
    else Unrecognised
  }

  /** The bit of per that grants access a to a caller judged by the owner bits (ownerTier) or by the other bits. */
  function GrantingBit(mb: ModeBits, ownerTier: bool, a: Access): int
    requires a != Unrecognised
  {
    match a
    case Read => if ownerTier then mb.rusr else mb.roth
    case Write => if ownerTier then mb.wusr else mb.woth
    case Exec => if ownerTier then mb.xusr else mb.xoth
  }

  /**
   * The caller is judged by the owner bits: the first sizeof(username) == 15
   * bytes of the owner's name and the current user agree, or the current
   * user is exactly "root".
   */
  predicate OwnerTier(owner: CString, currentUser: CString)
  {
    StrnEq(owner, currentUser, FIELD_SIZE) || IsRoot(currentUser)
  }

  /**
   * checkPermission(ip, mode): 1 allows, 0 denies.  The owner's name is
   * decoded from the account store at ip->ownerid.
   */
  function CheckPermission(accounts: seq<char>, ownerid: int, per: int, currentUser: CString,
                           mode: int, mb: ModeBits, om: OpenModes): (r: int)
    requires |accounts| == STORE_SIZE && 0 <= ownerid && ownerid + FIELD_SIZE <= STORE_SIZE
    requires ValidModeBits(mb) && DistinctModes(om)
    ensures r == 0 || r == 1
    ensures per < 0 || per > 63 ==> r == 1
    ensures 0 <= per <= 63 ==>
      (r == 1 <==> AccessOf(mode, om) != Unrecognised &&
                   HasBit(per, GrantingBit(mb, OwnerTier(Decoded(accounts, ownerid), currentUser), AccessOf(mode, om))))
  {
    var username := Decoded(accounts, ownerid);
    if per > ModeSum(mb) || per < 0 then 1
    else if StrnEq(username, currentUser, FIELD_SIZE) || IsRoot(currentUser) then
      if mode == om.rdonly || mode == om.rdwr then
        (if HasBit(per, mb.rusr) then 1 else 0)
      else if mode == om.wronly || mode == om.rdwr then
        (if HasBit(per, mb.wusr) then 1 else 0)
      else if mode == om.execute then
        (if HasBit(per, mb.xusr) then 1 else 0)
      else 0
    else
      if mode == om.rdonly || mode == om.rdwr then
        (if HasBit(per, mb.roth) then 1 else 0)
      else if mode == om.wronly || mode == om.rdwr then
        (if HasBit(per, mb.woth) then 1 else 0)
      else if mode == om.execute then
        (if HasBit(per, mb.xoth) then 1 else 0)
      else 0
  }

  /**
   * Who is judged by the owner bits: exactly "root", the owner, or -- since
   * only 15 bytes are compared -- any longer name whose first 15 characters
   * are a 15-character owner name.
   */
  lemma OwnerTierMeaning(owner: CString, currentUser: CString)
    requires |owner| <= FIELD_SIZE
    ensures OwnerTier(owner, currentUser) <==>
      currentUser == "root" || owner == currentUser ||
      (|owner| == FIELD_SIZE && |currentUser| > FIELD_SIZE && currentUser[..FIELD_SIZE] == owner)
  {
    IsRootExactly(currentUser);
    if |owner| < FIELD_SIZE || |currentUser| < FIELD_SIZE {
      StrnEqWide(owner, currentUser, FIELD_SIZE);
    } else {
      StrnEqNarrow(owner, currentUser, FIELD_SIZE);
      assert owner[..FIELD_SIZE] == owner;
    }
  }

  /** A read-write request is judged by the read bit alone: it is decided exactly like a read-only request. */
  lemma ReadWriteIsJudgedAsRead(accounts: seq<char>, ownerid: int, per: int, currentUser: CString,
                                mb: ModeBits, om: OpenModes)
    requires |accounts| == STORE_SIZE && 0 <= ownerid && ownerid + FIELD_SIZE <= STORE_SIZE
    requires ValidModeBits(mb) && DistinctModes(om)
    ensures CheckPermission(accounts, ownerid, per, currentUser, om.rdwr, mb, om)
         == CheckPermission(accounts, ownerid, per, currentUser, om.rdonly, mb, om)
  {
  }

  /** "root" gets no bypass: with per in range and the owner read bit clear, root is refused a read. */
  lemma RootHasNoBypass(accounts: seq<char>, ownerid: int, per: int, mb: ModeBits, om: OpenModes)
    requires |accounts| == STORE_SIZE && 0 <= ownerid && ownerid + FIELD_SIZE <= STORE_SIZE
    requires ValidModeBits(mb) && DistinctModes(om)
    requires 0 <= per <= 63 && !HasBit(per, mb.rusr)
    ensures CheckPermission(accounts, ownerid, per, "root", om.rdonly, mb, om) == 0
  {
    IsRootExactly("root");
  }

  /** A request code other than the four recognised ones (one carrying extra flag bits, say) is refused whenever per is in range. */
  lemma UnrecognisedModeDenied(accounts: seq<char>, ownerid: int, per: int, currentUser: CString,
                               mode: int, mb: ModeBits, om: OpenModes)
    requires |accounts| == STORE_SIZE && 0 <= ownerid && ownerid + FIELD_SIZE <= STORE_SIZE
    requires ValidModeBits(mb) && DistinctModes(om)
    requires 0 <= per <= 63
    requires mode != om.rdonly && mode != om.wronly && mode != om.rdwr && mode != om.execute
    ensures CheckPermission(accounts, ownerid, per, currentUser, mode, mb, om) == 0
  {
  }

  /** For the other tier, per == 0 refuses every access and per == 63 allows every recognised one. */
  lemma OtherTierExtremes(accounts: seq<char>, ownerid: int, currentUser: CString, mode: int,
                          mb: ModeBits, om: OpenModes)
    requires |accounts| == STORE_SIZE && 0 <= ownerid && ownerid + FIELD_SIZE <= STORE_SIZE
    requires ValidModeBits(mb) && DistinctModes(om)
    requires !OwnerTier(Decoded(accounts, ownerid), currentUser)
    ensures CheckPermission(accounts, ownerid, 0, currentUser, mode, mb, om) == 0
    ensures CheckPermission(accounts, ownerid, 63, currentUser, mode, mb, om) == 1 <==>
      AccessOf(mode, om) != Unrecognised
  {
    if AccessOf(mode, om) != Unrecognised {
      var b := GrantingBit(mb, false, AccessOf(mode, om));
      assert IsSingleBit(b);
      assert HasBit(63, b);
      assert !HasBit(0, b);
    }
  }

  /**
   * Once the owner's slot has been blanked by a deletion, the owner name
   * decodes to "" and the owner bits apply only to "root" and to a session
   * whose user name is empty.
   */
  lemma DeletedOwnerTier(accounts: seq<char>, ownerid: int, currentUser: CString)
    requires |accounts| == STORE_SIZE && 0 <= ownerid && ownerid + FIELD_SIZE <= STORE_SIZE
    requires IsBlank(accounts, ownerid)
    ensures OwnerTier(Decoded(accounts, ownerid), currentUser) <==> currentUser == "root" || currentUser == []
  {
    BlankDecodesEmpty(accounts, ownerid);
    OwnerTierMeaning([], currentUser);
  }

  // ---------------------------------------------------------------- gates

  /** sys_open without O_CREATE: the raw open mode is the request code. */
  function OpenPermitted(accounts: seq<char>, ownerid: int, per: int, currentUser: CString,
                         omode: int, mb: ModeBits, om: OpenModes): (ok: bool)
    requires |accounts| == STORE_SIZE && 0 <= ownerid && ownerid + FIELD_SIZE <= STORE_SIZE
    requires ValidModeBits(mb) && DistinctModes(om)
    ensures 0 <= per <= 63 && AccessOf(omode, om) == Unrecognised ==> !ok
    ensures 0 <= per <= 63 && omode == om.rdwr ==>
      (ok <==> HasBit(per, if OwnerTier(Decoded(accounts, ownerid), currentUser) then mb.rusr else mb.roth))
  {
    CheckPermission(accounts, ownerid, per, currentUser, omode, mb, om) != 0
  }

  /** sys_unlink asks for write access to the inode being unlinked. */
  function UnlinkPermitted(accounts: seq<char>, ownerid: int, per: int, currentUser: CString,
                           mb: ModeBits, om: OpenModes): (ok: bool)
    requires |accounts| == STORE_SIZE && 0 <= ownerid && ownerid + FIELD_SIZE <= STORE_SIZE
    requires ValidModeBits(mb) && DistinctModes(om)
    ensures ok <==> (per < 0 || per > 63 ||
                     HasBit(per, if OwnerTier(Decoded(accounts, ownerid), currentUser) then mb.wusr else mb.woth))
  {
    CheckPermission(accounts, ownerid, per, currentUser, om.wronly, mb, om) != 0
  }

  /** sys_chdir asks for execute access to the directory. */
  function ChdirPermitted(accounts: seq<char>, ownerid: int, per: int, currentUser: CString,
                          mb: ModeBits, om: OpenModes): (ok: bool)
    requires |accounts| == STORE_SIZE && 0 <= ownerid && ownerid + FIELD_SIZE <= STORE_SIZE
    requires ValidModeBits(mb) && DistinctModes(om)
    ensures ok <==> (per < 0 || per > 63 ||
                     HasBit(per, if OwnerTier(Decoded(accounts, ownerid), currentUser) then mb.xusr else mb.xoth))
  {
    CheckPermission(accounts, ownerid, per, currentUser, om.execute, mb, om) != 0
  }
}
