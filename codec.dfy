/**
 * The account record codec.  The account store is a flat character array of
 * SLOTS slots of ACCOUNT_SIZE bytes; a slot holds a FIELD_SIZE-byte username
 * followed by a FIELD_SIZE-byte password, and every unused byte is the
 * sentinel '*'.  Fields are written without a terminator and read back up to
 * the first sentinel.
 */
module Codec {
  import opened CStrings

  const FIELD_SIZE: nat := 15
  const ACCOUNT_SIZE: nat := 30
  const SLOTS: nat := 10
  const STORE_SIZE: nat := 300
  const SENTINEL: char := '*'

  /** The username field of slot s starts at this offset; its password field follows FIELD_SIZE bytes later. */
  function SlotStart(s: nat): nat
  {
    30 * s
  }

  /** n sentinel bytes. */
  function Stars(n: nat): (r: seq<char>)
    ensures |r| == n && forall j :: 0 <= j < n ==> r[j] == SENTINEL
  {
    seq(n, _ => SENTINEL)
  }

  /** The FIELD_SIZE bytes of b from start on are all sentinel. */
  predicate IsBlank(b: seq<char>, start: nat)
    requires start + FIELD_SIZE <= |b|
  {
    forall j :: start <= j < start + FIELD_SIZE ==> b[j] == SENTINEL
  }

  /** b with the bytes of t written from position start on. */
  function Overwrite(b: seq<char>, start: nat, t: seq<char>): (r: seq<char>)
    requires start + |t| <= |b|
    ensures |r| == |b|
    ensures forall j :: 0 <= j < |b| ==> r[j] == if start <= j < start + |t| then t[j - start] else b[j]
  {
    b[..start] + t + b[start + |t|..]
  }

  /** The STORE_SIZE-byte array after reading a file holding f from offset 0: min(STORE_SIZE, |f|) bytes are replaced. */
  function ReadAtStart(arr: seq<char>, f: seq<char>): (r: seq<char>)
    requires |arr| == STORE_SIZE
    ensures |r| == STORE_SIZE
    ensures forall j :: 0 <= j < STORE_SIZE ==> r[j] == if j < |f| then f[j] else arr[j]
  {
    if |f| >= STORE_SIZE then f[..STORE_SIZE] else f + arr[|f|..]
  }

  /** A file holding f after data is written at offset 0: data replaces its first |data| bytes, and it grows if shorter. */
  function WriteAtStart(f: seq<char>, data: seq<char>): (r: seq<char>)
    ensures |r| == if |f| > |data| then |f| else |data|
    ensures r[..|data|] == data
    ensures forall j :: |data| <= j < |f| ==> r[j] == f[j]
  {
    if |f| > |data| then data + f[|data|..] else data
  }

  // ---------------------------------------------------------------- decoding

  /** How many bytes of t precede its first sentinel (|t| when it has none). */
  function RunLen(t: seq<char>): (k: nat)
    ensures k <= |t|
    ensures forall j :: 0 <= j < k ==> t[j] != SENTINEL
    ensures k < |t| ==> t[k] == SENTINEL
  {
    if |t| == 0 || t[0] == SENTINEL then 0 else 1 + RunLen(t[1..])
  }

  /** How many bytes of s[start..start+size) precede the first sentinel (size when there is none). */
  function FieldLen(s: seq<char>, start: nat, size: nat): (k: nat)
    requires start + size <= |s|
    ensures k <= size
    ensures forall j :: start <= j < start + k ==> s[j] != SENTINEL
    ensures k < size ==> s[start + k] == SENTINEL
  {
    var t := s[start..start + size];
    var k := RunLen(t);
    assert forall j :: start <= j < start + k ==> s[j] == t[j - start];
    k
  }

  /** The three facts of FieldLen's contract determine it. */
  lemma FieldLenUnique(s: seq<char>, start: nat, size: nat, k: nat)
    requires start + size <= |s| && k <= size
    requires forall j :: start <= j < start + k ==> s[j] != SENTINEL
    requires k < size ==> s[start + k] == SENTINEL
    ensures FieldLen(s, start, size) == k
  {
  }

  /** Widening the field by one byte extends the run only if it had not stopped and the new byte is no sentinel. */
  lemma FieldLenStep(s: seq<char>, start: nat, t: nat)
    requires start + t + 1 <= |s|
    ensures FieldLen(s, start, t + 1) ==
      if FieldLen(s, start, t) == t && s[start + t] != SENTINEL then t + 1 else FieldLen(s, start, t)
  {
    var f := FieldLen(s, start, t);
    if f == t && s[start + t] != SENTINEL {
      FieldLenUnique(s, start, t + 1, t + 1);
    } else {
      FieldLenUnique(s, start, t + 1, f);
    }
  }

  /** The bytes strcpy_aPartTofirst copies out of s[start..start+size). */
  function FieldBytes(s: seq<char>, start: nat, size: nat): seq<char>
    requires start + size <= |s|
  {
    s[start..start + FieldLen(s, start, size)]
  }

  /** The name a FIELD_SIZE-byte buffer holds after strcpy_aPartTofirst(buf, s, start, FIELD_SIZE). */
  function Decoded(s: seq<char>, start: nat): CString
    requires start + FIELD_SIZE <= |s|
  {
    UntilNul(FieldBytes(s, start, FIELD_SIZE))
  }

  /**
   * Whether strcpy_aPartTofirst ends with its source pointer on a sentinel
   * (so that it writes a NUL right after the copied bytes): always when the
   * field stops early, and when a full field is followed by a sentinel.  A
   * sentinel that would lie past the end of s is not part of this model.
   */
  predicate EndsOnSentinel(s: seq<char>, start: nat, size: nat)
    requires start + size <= |s|
  {
    var k := FieldLen(s, start, size);
    0 < size && start + k < |s| && s[start + k] == SENTINEL
  }

  /**
   * strcpy_aPartTofirst: copies the field's bytes up to the first sentinel
   * (NUL bytes included) into buf, puts a NUL right after them when the copy
   * ended on a sentinel -- which may be the byte just past the field -- and
   * leaves every other byte of buf alone.  A NUL that would land past the end
   * of buf is not part of this model.
   */
  method DecodeInto(buf: array<char>, s: seq<char>, start: nat, size: nat)
    requires start + size <= |s| && size <= buf.Length
    modifies buf
    ensures var k := FieldLen(s, start, size);
      && (forall j :: 0 <= j < k ==> buf[j] == s[start + j])
      && (k < buf.Length ==> buf[k] == if EndsOnSentinel(s, start, size) then '\0' else old(buf[k]))
      && (forall j :: k < j < buf.Length ==> buf[j] == old(buf[j]))
  {
    var i, o, n := start, 0, size;
    while n > 0
      invariant 0 <= n <= size
      invariant o == FieldLen(s, start, size - n) && i == start + o
      invariant forall j :: 0 <= j < o ==> buf[j] == s[start + j]
      invariant o < buf.Length ==> buf[o] == if 0 < size - n && i < |s| && s[i] == SENTINEL then '\0' else old(buf[o])
      invariant forall j :: o < j < buf.Length ==> buf[j] == old(buf[j])
    {
      FieldLenStep(s, start, size - n);
      n := n - 1;
      if s[i] != SENTINEL {
        buf[o] := s[i];
        o, i := o + 1, i + 1;
      }
      if i < |s| && s[i] == SENTINEL && o < buf.Length {
        buf[o] := '\0';
      }
    }
  }

  /** strcpy_aPartTofirst into a fresh 15-byte buffer, read back as a C string: the field as the programs compare it. */
  method DecodeField(arr: seq<char>, start: nat) returns (field: CString)
    requires start + FIELD_SIZE <= |arr|
    ensures field == Decoded(arr, start)
  {
    var buf := new char[FIELD_SIZE];
    DecodeInto(buf, arr, start, FIELD_SIZE);
    BufferHoldsField(buf[..], arr, start, FIELD_SIZE);
    field := UntilNul(buf[..]);
  }

  /** A buffer exactly as wide as the field, laid out as DecodeInto leaves it, holds the field's bytes as its string. */
  lemma BufferHoldsField(r: seq<char>, s: seq<char>, start: nat, size: nat)
    requires start + size <= |s| && |r| == size
    requires forall j :: 0 <= j < FieldLen(s, start, size) ==> r[j] == s[start + j]
    requires FieldLen(s, start, size) < size ==> r[FieldLen(s, start, size)] == '\0'
    ensures UntilNul(r) == UntilNul(FieldBytes(s, start, size))
  {
    var k := FieldLen(s, start, size);
    var fb := FieldBytes(s, start, size);
    if k < size {
      assert r == fb + ['\0'] + r[k + 1..];
      UntilNulStopsAtNul(fb, r[k + 1..]);
    } else {
      assert r == fb;
    }
  }

  /** An all-sentinel field decodes to the empty name. */
  lemma BlankDecodesEmpty(s: seq<char>, start: nat)
    requires start + FIELD_SIZE <= |s| && IsBlank(s, start)
    ensures Decoded(s, start) == []
  {
    FieldLenUnique(s, start, FIELD_SIZE, 0);
  }

  // ---------------------------------------------------------------- encoding

  /** Writing one more character of t extends the overwritten run by one byte. */
  lemma OverwriteStep(b: seq<char>, start: nat, t: seq<char>, j: nat)
    requires j < |t| && start + j < |b|
    ensures Overwrite(b, start, t[..j + 1]) == Overwrite(b, start, t[..j])[start + j := t[j]]
  {
  }

  /** strcpy_WholeToFirst as the kernel has it: all strlen(s) bytes, with no cap at the field width. */
  method EncodeKernel(buf: array<char>, s: CString, start: nat)
    requires start + |s| <= buf.Length
    modifies buf
    ensures buf[..] == Overwrite(old(buf[..]), start, s)
  {
    var o, size := 0, |s|;
    while size > 0
      invariant 0 <= size <= |s| && o == |s| - size
      invariant buf[..] == Overwrite(old(buf[..]), start, s[..o])
    {
      size := size - 1;
      assert s[o] in s;
      if s[o] != '\0' {
        OverwriteStep(old(buf[..]), start, s, o);
        buf[start + o] := s[o];
        o := o + 1;
      }
    }
    assert s[..o] == s;
  }

  /** The part of s the user-space encoder copies: at most FIELD_SIZE bytes. */
  function Capped(s: CString): (r: CString)
    ensures |r| <= FIELD_SIZE && |r| <= |s| && r == s[..|r|]
    ensures |s| <= FIELD_SIZE ==> r == s
    ensures |s| > FIELD_SIZE ==> |r| == FIELD_SIZE
  {
    if |s| <= FIELD_SIZE then s else s[..FIELD_SIZE]
  }

  /** strcpy_WholeToFirst as login has it: FIELD_SIZE steps, copying while s has characters left. */
  method EncodeUser(buf: array<char>, s: CString, start: nat)
    requires start + |Capped(s)| <= buf.Length
    modifies buf
    ensures buf[..] == Overwrite(old(buf[..]), start, Capped(s))
  {
    var j, size := 0, FIELD_SIZE;
    while size > 0
      invariant 0 <= size <= FIELD_SIZE
      invariant j == if |s| < FIELD_SIZE - size then |s| else FIELD_SIZE - size
      invariant buf[..] == Overwrite(old(buf[..]), start, s[..j])
    {
      size := size - 1;
      if j < |s| {
        OverwriteStep(old(buf[..]), start, s, j);
        buf[start + j] := s[j];
        j := j + 1;
      }
    }
  }

  /** Encoding a sentinel-free name of at most FIELD_SIZE bytes into a blank field and decoding it gives the name back. */
  lemma EncodeThenDecode(b: seq<char>, start: nat, s: CString)
    requires start + FIELD_SIZE <= |b| && IsBlank(b, start)
    requires |s| <= FIELD_SIZE && SENTINEL !in s
    ensures Decoded(Overwrite(b, start, s), start) == s
  {
    FieldHolds(Overwrite(b, start, s), start, s);
  }

  /** A field whose bytes are s followed by sentinels decodes to s. */
  lemma FieldHolds(w: seq<char>, start: nat, s: CString)
    requires start + FIELD_SIZE <= |w| && |s| <= FIELD_SIZE && SENTINEL !in s
    requires forall j :: start <= j < start + |s| ==> w[j] == s[j - start]
    requires forall j :: start + |s| <= j < start + FIELD_SIZE ==> w[j] == SENTINEL
    ensures Decoded(w, start) == s
  {
    forall j | start <= j < start + |s| ensures w[j] != SENTINEL {
      assert s[j - start] in s;
    }
    FieldLenUnique(w, start, FIELD_SIZE, |s|);
    assert FieldBytes(w, start, FIELD_SIZE) == s;
    UntilNulOfCString(s);
  }

  /**
   * The kernel encoder on a name longer than the field: the field decodes to
   * the first FIELD_SIZE characters and the rest spills over the next field.
   */
  lemma {:induction false} KernelEncodeSpills(b: seq<char>, start: nat, s: CString)
    requires start + |s| <= |b| && |s| > FIELD_SIZE && SENTINEL !in s
    ensures Decoded(Overwrite(b, start, s), start) == s[..FIELD_SIZE]
    ensures Overwrite(b, start, s)[start + FIELD_SIZE] == s[FIELD_SIZE]
  {
    var w := Overwrite(b, start, s);
    forall j | start <= j < start + FIELD_SIZE ensures w[j] != SENTINEL {
      assert w[j] == s[j - start] && s[j - start] in s;
    }
    FieldLenUnique(w, start, FIELD_SIZE, FIELD_SIZE);
    assert FieldBytes(w, start, FIELD_SIZE) == s[..FIELD_SIZE];
    assert '\0' !in s[..FIELD_SIZE] by {
      forall j | 0 <= j < FIELD_SIZE ensures s[..FIELD_SIZE][j] != '\0' { assert s[j] in s; }
    }
    UntilNulOfCString(s[..FIELD_SIZE]);
  }

  // ---------------------------------------------------------------- strcmp_slice

  /** Some position before the field's first sentinel, within size, holds the same byte in buf and in s. */
  predicate SliceAgrees(buf: seq<char>, s: seq<char>, start: nat, size: nat)
    requires start + size <= |buf| && size <= |s|
  {
    exists k :: 0 <= k < FieldLen(buf, start, size) && buf[start + k] == s[k]
  }

  /**
   * strcmp_slice: walks buf's field and s together and reports 1 at the
   * first position where they agree, 0 when none does.  s stands for the
   * bytes readable from the second pointer.
   */
  method StrcmpSlice(buf: seq<char>, s: seq<char>, start: nat, size: nat) returns (r: int)
    requires start + size <= |buf| && size <= |s|
    ensures r == if SliceAgrees(buf, s, start, size) then 1 else 0
  {
    var i, k, n := start, 0, size;
    while n > 0 && buf[i] != SENTINEL
      invariant 0 <= n <= size && k == size - n && i == start + k
      invariant k <= FieldLen(buf, start, size)
      invariant forall j :: 0 <= j < k ==> buf[start + j] != s[j]
    {
      n := n - 1;
      if buf[i] == s[k] {
        return 1;
      }
      i, k := i + 1, k + 1;
    }
    return 0;
  }

  /** strcmp_slice reports agreement on a single character, not equality: "ab" and "ax" agree. */
  lemma SliceAgreementIsNotEquality()
    ensures SliceAgrees("ab*", "ax*", 0, 3)
    ensures !SliceAgrees("ab*", "ba*", 0, 3)
  {
    FieldLenUnique("ab*", 0, 3, 2);
    assert "ab*"[0] == "ax*"[0];
  }
}
