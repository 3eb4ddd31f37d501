# xv6 user accounts and file permissions, modelled in Dafny

This project models the account and permission layer that project4 adds to
the xv6 teaching kernel. Account records live in a 300-byte store (the file
`/aafile.txt`, mirrored in the array `account_array`). The store has ten
30-byte slots. Each slot holds a 15-byte user name and a 15-byte password,
padded with `'*'`. Slot 0 belongs to `root`.

- **CStrings**: NUL-terminated strings and the bounded comparison `strncmp`,
  including the `IsRoot` test `strncmp(s, "root", sizeof("root"))`.
- **Codec**: the field layout and the copy routines `strcpy_WholeToFirst`
  (kernel and user versions), `strcpy_aPartTofirst` and `strcmp_slice`.
  It also models reading and writing the store file at offset 0.
- **KernelAccounts**: the kernel's `sys_addUser`, `sys_deleteUser` and
  `sys_chmod`, as methods of a `Kernel` class. The class holds the store
  array, the store file and the current user. Inodes are a class whose
  `ownerid` and `per` fields are updated in place.
- **Permission**: `checkPermission`, and the places where `sys_open`,
  `sys_unlink` and `sys_chdir` consult it.
- **FileTable**: `argfd` and `fdalloc` over the per-process open-file table.
- **Login**: the user-space login program. This covers `save`, `load`, the
  sentinel fill at start-up and the credential loop, as a `LoginShell` class.
- **Listing**: `ls`. This covers the `rwxrwx` permission column, the
  blank-padded `fmtname`, and the filter that skips free directory entries.
- **AccountProperties**: lemmas relating the parts. They show that an added
  account can log in, who owns the new home directory, what the boot store
  looks like, and that the `ls` column and `checkPermission` agree.

The model keeps the code's own behaviour, quirks included:

- The duplicate-name test in `sys_addUser` and the lookup in
  `sys_deleteUser` compare only `sizeof(char *)` = 4 bytes
  (`KernelAccounts.PW`). So a name clashes with any stored name that
  shares its first four bytes (`ClashOnLeadingBytes`), and a stored name
  of four bytes or more cannot be added again (`ReAddRejected`). A name
  shorter than four bytes is compared up to its terminator against the
  stored field's `'*'` padding, so it escapes the test and can be stored
  twice (`ShortNameEscapesDuplicateTest`); `sys_deleteUser` then blanks the
  older copy, not the one just added (`ShortNameDeleteHitsEarlierCopy`). Every name starting with "root"
  resolves to slot 0 and can never be deleted
  (`RootPrefixedNamesUndeletable`).
- `strcmp_slice` reports 1 when some position agrees, not when the strings
  are equal (`SliceAgreementIsNotEquality`).
- `checkPermission` grants everything when `per` is out of range.
- An `O_RDWR` request is judged by the read bit only.
- Root has no bypass.
- `ls` shows the low six bits of the 16-bit `short`.

Constants whose values are not in these sources are parameters with
validity predicates:

- the `MODE_*` bits, which must be distinct single bits summing to 63;
- the `O_*`/`EXECUTE` request codes, which must be distinct;
- `sizeof(currentUser)`.

## Model

| member | source | states |
|---|---|---|
| CStrings.IsRootExactly | project4/sysfile.c:577-580 | comparing `sizeof("root")` = 5 bytes accepts exactly the name "root" |
| CStrings.StrnEqNarrow | project4/sysfile.c:600 | when both strings reach n bytes, strncmp with width n is equality of the first n bytes |
| CStrings.StrnEqWide | project4/sysfile.c:787 | when n passes the terminator of either string, strncmp is plain string equality |
| CStrings.UntilNulAppend | project4/sysfile.c:815 | a NUL-free prefix survives reading a C string: reading u ++ rest gives u followed by the read of rest |
| Codec.ReadAtStart | project4/sysfile.c:593 | readi of the store at offset 0: the first bytes come from the file as far as it reaches, the rest of the array keeps its old bytes |
| Codec.WriteAtStart | project4/sysfile.c:642 | writei of the store at offset 0: the file begins with the 300 bytes written, and any longer tail of the old file stays |
| Codec.FieldLen | project4/sysfile.c:507-520 | the length of a field is the number of bytes before its first `'*'`, bounded by the field width |
| Codec.FieldLenUnique | project4/sysfile.c:507-520 | any length with no sentinel before it and one at it is the field length |
| CStrings.FirstSet | project4/sysfile.c:46-51 | the scan every slot loop performs: the lowest position from a start whose flag is set, with every position before it clear; None exactly when all are clear |
| Codec.DecodeInto | project4/sysfile.c:507-520 | strcpy_aPartTofirst copies the bytes before the first sentinel to the front of the buffer, writes a NUL after them when the copy stopped on a sentinel and there is room, and leaves every other byte alone |
| Codec.BlankDecodesEmpty | project4/sysfile.c:507-520 | an all-`'*'` field decodes to the empty string |
| Codec.EncodeKernel | project4/sysfile.c:488-501 | the kernel copy writes strlen(s) bytes at start and nothing else, with no bound at the field width |
| Codec.KernelEncodeSpills | project4/sysfile.c:488-501 | a string longer than 15 bytes decodes as its first 15 bytes, and its sixteenth byte overwrites the next field |
| Codec.EncodeThenDecode | project4/sysfile.c:488-520 | writing a sentinel-free string of at most 15 bytes over a blank field and decoding it gives the string back |
| Codec.Capped | project4/login.c:36-48 | the user-space copy keeps at most the first 15 bytes of its argument |
| Codec.EncodeUser | project4/login.c:36-48 | the user-space copy writes the first min(strlen, 15) bytes at start and nothing else |
| Codec.StrcmpSlice | project4/sysfile.c:534-551 | returns 1 exactly when some position before the field's first sentinel holds the same byte in both strings, else 0 |
| Codec.SliceAgreementIsNotEquality | project4/sysfile.c:534-551 | strcmp_slice accepts "ab" against "ax" and rejects "ab" against "ba": it tests agreement at some position, not equality |
| KernelAccounts.FreeSlot | project4/sysfile.c:612-622 | the lowest slot from 1 whose name field is fifteen `'*'`; None exactly when slots 1..9 are all taken |
| KernelAccounts.FindByName | project4/sysfile.c:712-721 | the lowest slot whose decoded name agrees with the argument on the first sizeof(char *) bytes; None when no slot does |
| Codec.DecodeField | project4/sysfile.c:715 | copying a field into a fresh 15-byte buffer and reading it as a C string yields the decoded field |
| KernelAccounts.Kernel.ReadAccounts | project4/sysfile.c:593 | the store array becomes the file read at offset 0 over the old array |
| KernelAccounts.Kernel.WriteAccounts | project4/sysfile.c:642 | the file now begins with the 300 bytes of the store |
| KernelAccounts.RawNameAt | project4/sysfile.c:598-600 | one pass of addUser's first loop: `strncpy` copies the slot's raw 15-byte name field into a fresh 15-byte buffer, and the result is whether that buffer, read as a C string, agrees with the argument on the first 4 bytes |
| CStrings.StrNCopy | project4/sysfile.c:598 | `strncpy(dst, src + start, n)`: the first n bytes of dst hold the C string at the start of the n-byte source field followed by NULs up to n, and every byte of dst from n on is unchanged |
| CStrings.NulPaddedReadsBack | project4/sysfile.c:598-599 | a buffer holding a C string followed by a NUL (or by nothing, when the string fills it) reads back, up to its first NUL, as that string |
| KernelAccounts.ScanDuplicates | project4/sysfile.c:596-606 | the scan reports a clash exactly when some slot's raw name agrees with the argument on the first 4 bytes |
| KernelAccounts.DuplicateIsFirstClash | project4/sysfile.c:597-606 | some slot fails the duplicate test exactly when the scan finds a first one |
| KernelAccounts.ScanFreeSlot | project4/sysfile.c:612-622 | returns the byte offset of FreeSlot, or 0 when there is none |
| KernelAccounts.NameAt | project4/sysfile.c:715-718 | one pass of deleteUser's loop: the decoded name of the slot agrees with the argument on the first 4 bytes |
| KernelAccounts.ScanByName | project4/sysfile.c:712-721 | returns the byte offset of FindByName, or 0 when there is none |
| KernelAccounts.Kernel.StoreAccount | project4/sysfile.c:638-642 | name and password are written at idx and idx+15, and the store is written back |
| KernelAccounts.Kernel.AddUser | project4/sysfile.c:555-668 | non-root or a missing file gives -1 with nothing changed; otherwise the store is read, then a duplicate or a full store gives -1; otherwise the account goes into the first free slot, the file is written, the new directory's ownerid is that slot's offset and the result is 0 |
| KernelAccounts.Kernel.DeleteUser | project4/sysfile.c:672-742 | non-root caller, the name "root" or a missing file gives -1 with nothing changed; otherwise a name not found, or first found in slot 0, gives -1; otherwise both fields of the slot are blanked, the file is written and the result is 0 |
| KernelAccounts.Kernel.Chmod | project4/sysfile.c:746-801 | a missing file gives -1; otherwise the store is read; a missing path gives -1; root or the owner, compared over sizeof(currentUser) bytes, gets per := mode and 0; anyone else gets -1 and per unchanged |
| KernelAccounts.DecodedOnlyReadsField | project4/sysfile.c:507-520 | a decoded field depends only on its 15 bytes |
| KernelAccounts.InsertedKeepsOtherSlots | project4/sysfile.c:638-639 | adding an account leaves every other slot's bytes unchanged |
| KernelAccounts.SlotDecodes | project4/sysfile.c:638-639 | a name and a password of at most 15 sentinel-free bytes written into a blank slot decode back to themselves |
| KernelAccounts.AddedAccountDecodes | project4/sysfile.c:612-642 | after addUser, the slot it filled decodes to the given name and password |
| KernelAccounts.InsertKeepsPadding | project4/sysfile.c:612-642 | adding a name whose first byte is not `'*'` keeps the store invariant: a free name field means a free password field |
| KernelAccounts.EmptyNameLeavesSlotFree | project4/sysfile.c:612-642 | adding the empty name leaves its slot free, so the next addUser overwrites it, and breaks the padding invariant |
| KernelAccounts.SentinelNameLeavesSlotFree | project4/sysfile.c:612-642 | the same holds for a name made only of `'*'` (such as `"*"`): the slot still looks free and the padding invariant breaks |
| KernelAccounts.DeleteUndoesAdd | project4/sysfile.c:732-736 | blanking the slot addUser just filled restores the store byte for byte; that deleteUser picks that slot holds only for names of 4 bytes or more (`DeleteFindsAddedSlot`, `ShortNameDeleteHitsEarlierCopy`) |
| KernelAccounts.DeleteFindsAddedSlot | project4/sysfile.c:596-606 | for a name of 4 bytes or more that passed the duplicate test, deleteUser's lookup in the store addUser wrote finds exactly the slot addUser filled |
| KernelAccounts.DecodedClashIsRaw | project4/sysfile.c:712-718 | for a name of 4 bytes or more, a slot that answers deleteUser's lookup also fails addUser's duplicate test |
| KernelAccounts.FindByNameAt | project4/sysfile.c:712-721 | deleteUser's lookup stops at a slot that answers it when no lower slot does |
| KernelAccounts.NoEarlierNameClash | project4/sysfile.c:596-606 | if no slot failed addUser's duplicate test for a name of 4 bytes or more, then after the add no slot below the new one answers deleteUser's lookup for it |
| KernelAccounts.ShortNameDeleteHitsEarlierCopy | project4/sysfile.c:712-736 | a name of 1 to 3 bytes added twice lands in two slots, the second after the first, and deleteUser's lookup then finds the first copy or an earlier slot, never the second |
| KernelAccounts.SecondAddLandsLater | project4/sysfile.c:611-620 | after a non-empty name is stored, the next free slot addUser picks lies above it |
| KernelAccounts.InsertedKeepsOtherFields | project4/sysfile.c:638-642 | storing an account changes no other slot's name field, its decoding or whether it is free |
| KernelAccounts.BlankedBytes | project4/sysfile.c:732-733 | deleting blanks exactly the 30 bytes of the slot |
| KernelAccounts.DeleteFreesSlot | project4/sysfile.c:732-736 | a deleted slot decodes as empty, is free, keeps the padding invariant and is reused no later than its index |
| KernelAccounts.ClashOnLeadingBytes | project4/sysfile.c:596-606 | a slot whose first 4 bytes equal the name's clashes with it |
| KernelAccounts.ReAddRejected | project4/sysfile.c:596-606 | once stored, a name of at least 4 bytes is refused by the duplicate test |
| KernelAccounts.ShortNameEscapesDuplicateTest | project4/sysfile.c:596-606 | a name shorter than 4 bytes is not refused after being added, so it can be stored twice |
| KernelAccounts.RootPrefixedNamesUndeletable | project4/sysfile.c:712-727 | every name starting with "root" is found in slot 0, so deleteUser refuses it |
| Permission.CheckPermission | project4/sysfile.c:812-878 | per out of 0..63 gives 1; otherwise 1 exactly when the request is recognised and the bit for its access, in the owner tier for the owner or root and the other tier otherwise, is set |
| Permission.OwnerTierMeaning | project4/sysfile.c:820 | the owner tier holds for "root", for the owner's exact name, and for a longer name extending a full 15-byte owner name |
| Permission.ReadWriteIsJudgedAsRead | project4/sysfile.c:822-829 | an O_RDWR request gets the same answer as O_RDONLY |
| Permission.RootHasNoBypass | project4/sysfile.c:820-847 | root's read request is refused whenever the owner read bit is clear |
| Permission.UnrecognisedModeDenied | project4/sysfile.c:877 | a request that is none of the known codes is refused when per is in range |
| Permission.OtherTierExtremes | project4/sysfile.c:848-876 | for a caller outside the owner tier, per = 0 refuses every request and per = 63 grants exactly the recognised ones |
| Permission.DeletedOwnerTier | project4/sysfile.c:815-820 | once the owner's slot is blanked, only root and the empty name are in the owner tier |
| Permission.OpenPermitted | project4/sysfile.c:334-340 | open proceeds exactly when checkPermission grants the open mode; O_RDWR is decided by the read bit |
| Permission.UnlinkPermitted | project4/sysfile.c:219-223 | unlink proceeds exactly when per is out of range or the tier's write bit is set |
| Permission.ChdirPermitted | project4/sysfile.c:422-427 | chdir proceeds exactly when per is out of range or the tier's execute bit is set |
| FileTable.ArgFd | project4/sysfile.c:21-36 | a descriptor resolves exactly when it is in 0..NOFILE-1 and its slot is in use |
| FileTable.FirstFree | project4/sysfile.c:46-51 | the lowest free descriptor, with every lower one in use; None exactly when every descriptor is in use |
| FileTable.Proc.FdAlloc | project4/sysfile.c:40-53 | installs the file in the lowest free slot and returns its index; -1 and no change when all are in use |
| FileTable.AllocatedDescriptorResolves | project4/sysfile.c:21-53 | the descriptor fdalloc returns was refused by argfd before and resolves to the new file after; lower descriptors are unchanged |
| FileTable.FullTableHasNoFreeDescriptor | project4/sysfile.c:21-53 | fdalloc fails exactly when argfd accepts every descriptor |
| Login.FirstMatch | project4/login.c:167-175 | the lowest slot whose decoded name and password both equal the input; None when none does |
| Login.Gets | project4/login.c:157 | a line gets can deliver (at most 14 characters, no newline or carriage return before the last) lands at the front of the 15-byte buffer followed by a NUL, and reads back as the line |
| Login.StrLen | project4/login.c:159 | the index of the first NUL, which is the length of the buffer's string |
| Login.StripLast | project4/login.c:159 | the last character of the buffer's string becomes a NUL and nothing else changes, so the string loses its last character |
| Login.ReadLine | project4/login.c:156-164 | after one prompt the buffer's string is the line without its last character |
| Login.SlotMatches | project4/login.c:168-171 | one pass of the for loop: the slot's decoded name and password equal the pair |
| Login.ScanCredentials | project4/login.c:167-175 | the loop finds a match exactly when FirstMatch does |
| Login.LoginShell.Save | project4/login.c:72-96 | the pair is written, capped at 15 bytes, into slot 0; on success the file is written and the result is 1, otherwise 0 and the file is unchanged |
| Login.LoginShell.Load | project4/login.c:99-130 | no file gives 0 with nothing changed; a file shorter than 300 bytes gives 0 with its bytes read over the store; otherwise the store is the file's first 300 bytes, re-saved with root/0000 when slot 0 does not decode to "root", and the result is 1 |
| Login.LoginShell.FillSentinels | project4/login.c:143-145 | after the loop the whole store is `'*'` |
| Login.LoginShell.Boot | project4/login.c:142-152 | a readable store is loaded; otherwise the store is rebuilt as the boot store and saved |
| Login.LoginShell.Attempt | project4/login.c:153-184 | the name and password buffers hold the lines read, each without its last character; the flag is set once some slot matches that pair, and stays set; the current user is the buffered name when it is set |
| Login.LoginShell.Admit | project4/login.c:167-178 | the flag becomes set when some slot matches the pair and is never cleared; the current user becomes the name when the flag is set, and is kept otherwise |
| Login.InitialStoreLayout | project4/login.c:142-152 | the boot store holds root/0000 in slot 0 and blank slots 1..9 |
| Login.RootLogsIn | project4/login.c:167-175 | root/0000 logs in on the boot store, through slot 0 |
| Login.WrongPasswordRejected | project4/login.c:167-175 | root with any other password is refused on the boot store |
| Login.BlankCredentialsMatchFreeSlot | project4/login.c:167-175 | an empty name and password match any fully blank slot |
| Login.BlankCredentialsOnBootStore | project4/login.c:167-175 | on the boot store, empty credentials log in through slot 1 |
| Listing.ShortOf | project4/ls.c:26 | the value a `short` parameter receives: in range, and equal to the argument modulo 65536 |
| Listing.PermStringIgnoresHighBits | project4/ls.c:26-66 | the column ignores every bit above the six mode bits |
| Listing.ShortTruncationInvisible | project4/ls.c:26-66 | truncating to `short` never changes the column |
| Listing.Basename | project4/ls.c:13-15 | the part after the last `/`: a suffix without `/`, preceded by `/` unless it is the whole path |
| Listing.BasenameOfJoin | project4/ls.c:97-105 | fmtname of dir + "/" + name is the entry name |
| Listing.PaddedShape | project4/ls.c:17-22 | names of 14 bytes or more come back unchanged, shorter ones are padded with blanks to 14 |
| Listing.ListedRows | project4/ls.c:100-117 | the listing has at most one row per directory entry |
| Listing.ListedRowsSnoc | project4/ls.c:100-117 | reading one more entry appends that entry's rows to the listing |
| Listing.ShownEntriesListed | project4/ls.c:100-117 | every entry in use with a file or directory type appears as a row |
| Listing.ListedRowsFromShownEntries | project4/ls.c:100-117 | every row comes from an entry in use with a file or directory type |
| Listing.LsBuffers.Rwxrwx | project4/ls.c:26-66 | the static 6-byte buffer and the result hold the column of the truncated mode |
| Listing.LsBuffers.LastSlashScan | project4/ls.c:13-15 | the backward scan stops just after the last `/` |
| Listing.LsBuffers.FmtName | project4/ls.c:7-23 | returns the blank-padded base name; for a base name shorter than 14 bytes the static buffer holds that padded name and a NUL, and reads back as it; for a longer one the buffer is untouched |
| Listing.LsBuffers.ListDir | project4/ls.c:100-117 | the loop produces the listing of the entries |
| Listing.LsBuffers.ListEntry | project4/ls.c:101-116 | one entry yields its row if shown and nothing otherwise |
| Listing.LsBuffers.Ls | project4/ls.c:69-121 | a file gives its own row; a directory gives the listing of its entries, or nothing when the path is too long for the 512-byte buffer; other types give nothing |
| AccountProperties.AddedAccountMatches | project4/sysfile.c:612-642 | the login scan over a store holding an account addUser stored matches that account's name and password, at its slot or an earlier one |
| AccountProperties.AddedUserCanLogIn | project4/login.c:136-175 | for a name and password of at most 13 characters each with no newline or carriage return, the typed lines (with their newline) are lines gets can deliver into the 15-byte buffers, strip back to the name and password, and the scan over the store addUser wrote admits them |
| AccountProperties.LineBreakAccountUnreachable | project4/login.c:155-175 | an account whose name or password holds a newline or a carriage return (addUser does not refuse one) never matches through its own slot, whatever lines gets delivers |
| AccountProperties.OverlongAccountUnreachable | project4/login.c:136-175 | when the name or password addUser stored has 14 or 15 characters, no pair of lines the 15-byte buffers can hold (at most 14 characters, one stripped) matches that account's slot |
| AccountProperties.NewHomeOwnedByNewUser | project4/sysfile.c:659 | the new directory's owner tier holds for the new user, for root, and for a name extending a 15-byte user name, and for no one else |
| AccountProperties.BootStoreShape | project4/login.c:142-152 | the boot store keeps the padding invariant, its first free slot is 1, and "root" cannot be added again |
| AccountProperties.BootStoreShadowsRootPrefixedNames | project4/sysfile.c:712-727 | on the boot store, any name starting with "root" resolves to slot 0 |
| AccountProperties.ColumnMatchesDecision | project4/ls.c:26-66 | for per in range, each letter of the ls column is shown exactly when checkPermission grants that access to that tier |
| AccountProperties.OutOfRangeModeOpensAll | project4/sysfile.c:817-818 | a mode from 64 to 127 grants every request to every caller, while ls shows only its low six bits |

## Left out

- Console output (`cprintf`, `printf`), the console behind `gets` (each line read is a parameter), the log transactions (`begin_op`/`end_op`), inode locking and `iupdate` are not modelled. They do not affect the store or the decisions.
- Login.LoginShell.Admit: `exec("sh", argv)` and `wait` (login.c:182-183) are not modelled. A successful `exec` never returns, so the loop goes on only when `exec` fails; a later pass with `entryFlag` already set, which the model's sticky flag describes, happens only then.
- Argument fetching (`argstr`, `argint`, `argptr`) is not modelled. Its failure paths return -1 before any state changes.
- `sys_setCurrentUser`: the current user is a field of the kernel model, set by its constructor.
- `isEmpty` (sysfile.c:522-531) is not modelled, because no caller in the sources uses it.
- Name lookup (`namei`) is not modelled. The store file is an `Option` that is present or not, and a looked-up inode is an `Inode?` that is null when the path does not resolve.
- `create` is not modelled. `AddUser` receives its result as `dir`, and `null` stands for failure. Its inner `checkPermission(0, …)` on the null path is not modelled.
- KernelAccounts.Kernel.AddUser: when `create` fails the code calls `iunlockput(0)`, which panics in xv6's `iunlock` on a null inode. The model's result 0 with the store written stands for that path, on which the kernel does not return.
- KernelAccounts.Kernel.AddUser: the requires excludes a name over 30 bytes or a password over 15. The kernel copy has no bound (sysfile.c:493-498, 638-639), so such inputs spill into the name field of the next slot, and past the 300-byte store when the slot is slot 9.
- KernelAccounts.Kernel.AddUser: `safestrcpy` writes a terminating NUL into `star[15]`, one byte past the 15-byte buffer. The model's blank field is exactly fifteen `'*'`.
- KernelAccounts.Kernel.DeleteUser: `strlen(star)` reads past the 15-byte buffer. The model blanks exactly 15 bytes per field.
- KernelAccounts.Kernel.Chmod: the requires excludes an `ownerid` outside the store. The code would read past the array. The deny path leaving `cd` referenced is not modelled.
- KernelAccounts.Kernel.Chmod: the owner's name is read through `cd->ownerid` (sysfile.c:783) before `ilock(cd)` (sysfile.c:793). Locking is not modelled, so the model reads the inode's current fields.
- KernelAccounts.Kernel.Chmod: the C type of the inode field `per` is not part of this model, so `cd->per = mode` (sysfile.c:795) stores `mode` unchanged. This assumes `per` is wide enough for `mode`. If it were narrower, such as the `short` ls.c:26 takes, a large mode would be truncated and then judged by its low bits, rather than failing open as `CheckPermission` does for an out-of-range `per`.
- KernelAccounts.Kernel.Chmod: `sizeof(currentUser)` is not fixed by these sources, so it is the constructor parameter `currentUserSize`.
- Codec.DecodeInto: when a field has no sentinel, `strcpy_aPartTofirst` tests the byte after the field, which may lie past the array. That byte is taken to be not `'*'`, and the 15-byte buffer is then read without a NUL, as its 15 bytes.
- Permission.CheckPermission: the requires keeps `ownerid` inside the store. Its callers (sysfile.c:219, 262, 275, 334 and 422) pass whatever `ownerid` the inode holds.
- The values of `MODE_*`, `O_*` and `EXECUTE`, and the `stat.h`/`fcntl.h` headers, are not part of this model. They are parameters constrained by `ValidModeBits` and `DistinctModes`.
- Login.LoginShell.FillSentinels: `strcpy` writes a NUL after each `'*'`, and the last one lands at byte 300, one past the array. The model keeps in-bounds writes only.
- `gets` itself (xv6's ulib.c) is not part of this model. The lines it can deliver are stated by `Login.IsGetsLine`: at most 14 characters, with a newline or carriage return only as the last one.
- Login.LoginShell.Attempt: an empty line from `gets` (end of input) makes `strlen` 0, and login.c:159 then writes `username[-1]`. The requires excludes empty lines.
- Login.LoginShell.Save: a failed open or write is modelled as the file unchanged. A partial write is not modelled.
- Login.LoginShell.Load: an open that fails for a reason other than a missing file is not modelled.
- The login loop reads the store loaded at boot. Accounts added afterwards by the kernel are seen only after the next start, and `AddedAccountMatches` and `AddedUserCanLogIn` are stated over the saved store.
- Listing.LsBuffers.Rwxrwx: the buffer has six bytes and `strcpy` writes a NUL at `rwx[6]`. The model keeps the six letters only.
- Listing.LsBuffers.FmtName: the padded buffer `buf[14]` keeps the NUL from static zero initialisation. Long names return the input pointer itself, modelled as the same characters.
- Listing.LsBuffers.Ls: failures of `open` and `fstat` are not modelled. Directory entries are given as a sequence with an optional stat result. `None` is a failed `stat`, and that entry is skipped as at ls.c:106-109; the message printed for it is not modelled.
- Listing.LsBuffers.ListDir: a `Dirent` name has no length bound in the model. ls.c:104-105 copies exactly `DIRSIZ` bytes of `de.name` and terminates them, so a real entry's name has at most 14 bytes. Entries with longer names stand for no real directory entry.
- `project2` and `project3` are not part of this model.
