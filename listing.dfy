/**
 * The formatting side of ls: the six-character permission column (rwxrwx),
 * the blank-padded name column (fmtname) and the rule that decides which
 * directory entries become rows and with which type letter.  Both
 * formatters return a static buffer, modelled as arrays owned by one
 * LsBuffers object.
 */
module Listing {
  import opened CStrings
  import opened Permission

  /** The width of a directory entry's name, and of the name column. */
  const DIRSIZ: nat := 14
  /** The type codes ls prints: 1 for a directory, 2 for a file. */
  const T_DIR: int := 1
  const T_FILE: int := 2
  /** sizeof buf in ls: the longest path plus entry name it can build. */
  const LS_BUF_SIZE: nat := 512

  /** The value a `short` parameter receives from an int: its low 16 bits, in two's complement. */
  function ShortOf(v: int): (r: int)
    ensures -32768 <= r < 32768 && (v - r) % 65536 == 0
  {
    (v + 32768) % 65536 - 32768
  }

  /** One letter of the column: c when mode has the bit, '-' otherwise. */
  function Letter(mode: int, bit: int, c: char): char
    requires bit > 0
  {
    if HasBit(mode, bit) then c else '-'
  }

  /** The permission column for a permission word. */
  function PermString(mode: int, mb: ModeBits): (r: seq<char>)
    requires ValidModeBits(mb)
  {
    [ Letter(mode, mb.rusr, 'r'), Letter(mode, mb.wusr, 'w'), Letter(mode, mb.xusr, 'x'),
      Letter(mode, mb.roth, 'r'), Letter(mode, mb.woth, 'w'), Letter(mode, mb.xoth, 'x') ]
  }

  /** Adding an even number keeps the parity. */
  lemma ParityShift(x: int, j: int)
    ensures (x + 2 * j) % 2 == x % 2
  {
  }

  /** A single bit below 64 sees the same value in v and in v plus a multiple of 64. */
  lemma BitIgnoresMultiplesOf64(v: int, k: int, b: int)
    requires IsSingleBit(b)
    ensures HasBit(v + 64 * k, b) == HasBit(v, b)
  {
    // 64 * k is (64 / b) * k copies of b, and 64 / b is even.
    var j := if b == 1 then 32 * k else if b == 2 then 16 * k else if b == 4 then 8 * k
             else if b == 8 then 4 * k else if b == 16 then 2 * k else k;
    assert (v + 64 * k) / b == v / b + 2 * j by {
      if b == 1 { } else if b == 2 { } else if b == 4 { }
      else if b == 8 { } else if b == 16 { } else { }
    }
    ParityShift(v / b, j);
  }

  /** The column depends on the six permission bits only: adding any multiple of 64 changes nothing. */
  lemma PermStringIgnoresHighBits(mode: int, k: int, mb: ModeBits)
    requires ValidModeBits(mb)
    ensures PermString(mode + 64 * k, mb) == PermString(mode, mb)
  {
    BitIgnoresMultiplesOf64(mode, k, mb.rusr);
    BitIgnoresMultiplesOf64(mode, k, mb.wusr);
    BitIgnoresMultiplesOf64(mode, k, mb.xusr);
    BitIgnoresMultiplesOf64(mode, k, mb.roth);
    BitIgnoresMultiplesOf64(mode, k, mb.woth);
    BitIgnoresMultiplesOf64(mode, k, mb.xoth);
  }

  /** Passing the permission word through a `short` parameter does not change the column. */
  lemma ShortTruncationInvisible(v: int, mb: ModeBits)
    requires ValidModeBits(mb)
    ensures PermString(ShortOf(v), mb) == PermString(v, mb)
  {
    var k := (v - ShortOf(v)) / 65536;
    assert v == ShortOf(v) + 64 * (1024 * k);
    PermStringIgnoresHighBits(ShortOf(v), 1024 * k, mb);
  }

  // ---------------------------------------------------------------- fmtname

  /** The part of path after its last '/', or all of it when it has none. */
  function Basename(path: CString): (r: CString)
    ensures |r| <= |path| && r == path[|path| - |r|..]
    ensures '/' !in r
    ensures |r| < |path| ==> path[|path| - |r| - 1] == '/'
  {
    if |path| == 0 || path[|path| - 1] == '/' then []
    else
      var init, c := path[..|path| - 1], path[|path| - 1];
      assert path == init + [c];
      assert '\0' !in init by {
        forall j | 0 <= j < |init| ensures init[j] != '\0' { assert init[j] == path[j]; }
      }
      var b := Basename(init);
      assert c in path;
      assert path[|path| - |b + [c]|..] == b + [c] by {
        assert |path| - |b + [c]| == |init| - |b|;
        assert init[|init| - |b|..] + [c] == (init + [c])[|init| - |b|..];
      }
      b + [c]
  }

  /** n spaces. */
  function Spaces(n: nat): (r: seq<char>)
    ensures |r| == n && forall j :: 0 <= j < n ==> r[j] == ' '
  {
    seq(n, _ => ' ')
  }

  /** The name column for a path: its basename, blank-padded to DIRSIZ characters unless it is already that long. */
  function Padded(path: CString): seq<char>
  {
    var name := Basename(path);
    if |name| >= DIRSIZ then name else name + Spaces(DIRSIZ - |name|)
  }

  /** The name column starts with the basename and is at least DIRSIZ wide; only a short name gets padding. */
  lemma PaddedShape(path: CString)
    ensures var name := Basename(path);
      && |Padded(path)| == (if |name| >= DIRSIZ then |name| else DIRSIZ)
      && Padded(path)[..|name|] == name
      && forall j :: |name| <= j < |Padded(path)| ==> Padded(path)[j] == ' '
  {
  }

  /** Appending a character other than '/' extends the basename by that character. */
  lemma BasenameSnoc(p: CString, c: char)
    requires c != '/' && c != '\0'
    ensures Basename(p + [c]) == Basename(p) + [c]
  {
    assert (p + [c])[..|p|] == p;
  }

  /** A path that ends in "/name", for a name without '/', shows exactly that name. */
  lemma {:induction false} BasenameOfJoin(dir: CString, name: CString)
    requires '/' !in name
    ensures Basename(dir + "/" + name) == name
    decreases |name|
  {
    if |name| == 0 {
      var path := dir + "/" + name;
      assert path[|path| - 1] == '/';
    } else {
      var init: CString := name[..|name| - 1];
      var c := name[|name| - 1];
      var p := dir + "/" + init;
      assert '/' !in init && c != '/' && name == init + [c] by {
        assert name == init + [c];
        assert c in name;
      }
      assert dir + "/" + name == p + [c];
      BasenameOfJoin(dir, init);
      BasenameSnoc(p, c);
    }
  }

  // ---------------------------------------------------------------- ls

  /** What fstat / stat report about an object. */
  datatype Stat = Stat(kind: int, per: int)

  /** A directory entry as ls reads it, with the result of stat on its path (None when stat fails). */
  datatype Dirent = Dirent(inum: int, name: CString, st: Option<Stat>)

  /** One printed line: name column, type letter, permission column. */
  datatype Row = Row(name: seq<char>, kind: char, perms: seq<char>)

  /** ls prints the entry: it is in use, stat succeeds, and it is a directory or a file. */
  predicate Shown(e: Dirent)
  {
    e.inum != 0 && e.st.Some? && (e.st.value.kind == T_DIR || e.st.value.kind == T_FILE)
  }

  /** The row for an entry ls prints. */
  function RowOf(dir: CString, e: Dirent, mb: ModeBits): Row
    requires ValidModeBits(mb) && Shown(e)
  {
    Row(Padded(dir + "/" + e.name), if e.st.value.kind == T_DIR then 'd' else '-',
        PermString(ShortOf(e.st.value.per), mb))
  }

  /** The rows one entry contributes: its row when it is shown, none otherwise. */
  function EntryRows(dir: CString, e: Dirent, mb: ModeBits): seq<Row>
    requires ValidModeBits(mb)
  {
    if Shown(e) then [RowOf(dir, e, mb)] else []
  }

  /** The rows of a directory listing: one per shown entry, in the order of the entries. */
  function ListedRows(dir: CString, entries: seq<Dirent>, mb: ModeBits): (rows: seq<Row>)
    requires ValidModeBits(mb)
    ensures |rows| <= |entries|
  {
    FilterMap(Shown, e requires ValidModeBits(mb) && Shown(e) => RowOf(dir, e, mb), entries)
  }

  /** The listing of the first n + 1 entries is that of the first n, then entry n's rows. */
  lemma ListedRowsSnoc(dir: CString, entries: seq<Dirent>, n: nat, mb: ModeBits)
    requires ValidModeBits(mb) && n < |entries|
    ensures ListedRows(dir, entries[..n + 1], mb) == ListedRows(dir, entries[..n], mb) + EntryRows(dir, entries[n], mb)
  {
    FilterMapSnoc(Shown, e requires ValidModeBits(mb) && Shown(e) => RowOf(dir, e, mb), entries, n);
  }

  /** Every shown entry gets its row. */
  lemma ShownEntriesListed(dir: CString, entries: seq<Dirent>, mb: ModeBits)
    requires ValidModeBits(mb)
    ensures forall e :: e in entries && Shown(e) ==> RowOf(dir, e, mb) in ListedRows(dir, entries, mb)
  {
    forall e | e in entries && Shown(e) ensures RowOf(dir, e, mb) in ListedRows(dir, entries, mb) {
      var i :| 0 <= i < |entries| && entries[i] == e;
      FilterMapHas(Shown, e requires ValidModeBits(mb) && Shown(e) => RowOf(dir, e, mb), entries, i);
    }
  }

  /** Every row is the row of some shown entry. */
  lemma ListedRowsFromShownEntries(dir: CString, entries: seq<Dirent>, mb: ModeBits)
    requires ValidModeBits(mb)
    ensures forall r :: r in ListedRows(dir, entries, mb) ==>
      exists e :: e in entries && Shown(e) && r == RowOf(dir, e, mb)
  {
    forall r | r in ListedRows(dir, entries, mb) ensures exists e :: e in entries && Shown(e) && r == RowOf(dir, e, mb) {
      FilterMapMember(Shown, e requires ValidModeBits(mb) && Shown(e) => RowOf(dir, e, mb), entries, r);
      var i :| 0 <= i < |entries| && Shown(entries[i]) && r == RowOf(dir, entries[i], mb);
      assert entries[i] in entries;
    }
  }

  // ---------------------------------------------------------------- filtering

  /** f applied to the elements of s that keep accepts, in order. */
  function FilterMap<A(!new), B>(keep: A -> bool, f: A --> B, s: seq<A>): (r: seq<B>)
    requires forall x :: keep(x) ==> f.requires(x)
    ensures |r| <= |s|
    decreases |s|
  {
    if |s| == 0 then []
    else
      var n := |s| - 1;
      FilterMap(keep, f, s[..n]) + if keep(s[n]) then [f(s[n])] else []
  }

  /** Filtering one more element appends its image when it is kept. */
  lemma FilterMapSnoc<A(!new), B>(keep: A -> bool, f: A --> B, s: seq<A>, n: nat)
    requires forall x :: keep(x) ==> f.requires(x)
    requires n < |s|
    ensures FilterMap(keep, f, s[..n + 1]) == FilterMap(keep, f, s[..n]) + if keep(s[n]) then [f(s[n])] else []
  {
    assert s[..n + 1][..n] == s[..n];
  }

  /** Every kept element's image is in the result. */
  lemma {:induction false} FilterMapHas<A(!new), B>(keep: A -> bool, f: A --> B, s: seq<A>, i: nat)
    requires forall x :: keep(x) ==> f.requires(x)
    requires i < |s| && keep(s[i])
    ensures f(s[i]) in FilterMap(keep, f, s)
    decreases |s|
  {
    var n := |s| - 1;
    if i < n {
      assert s[..n][i] == s[i];
      FilterMapHas(keep, f, s[..n], i);
    }
  }

  /** Everything in the result is the image of a kept element. */
  lemma {:induction false} FilterMapMember<A(!new), B>(keep: A -> bool, f: A --> B, s: seq<A>, y: B)
    requires forall x :: keep(x) ==> f.requires(x)
    requires y in FilterMap(keep, f, s)
    ensures exists i :: 0 <= i < |s| && keep(s[i]) && y == f(s[i])
    decreases |s|
  {
    var n := |s| - 1;
    if !(keep(s[n]) && y == f(s[n])) {
      FilterMapMember(keep, f, s[..n], y);
      var i :| 0 <= i < n && keep(s[..n][i]) && y == f(s[..n][i]);
      assert s[..n][i] == s[i];
    }
  }

  /** What ls prints for a path: one row for a file, the listing for a directory (none when the path is too long). */
  function LsRows(path: CString, st: Stat, entries: seq<Dirent>, mb: ModeBits): seq<Row>
    requires ValidModeBits(mb)
  {
    if st.kind == T_FILE then [Row(Padded(path), '-', PermString(ShortOf(st.per), mb))]
    else if st.kind == T_DIR then
      if |path| + 1 + DIRSIZ + 1 > LS_BUF_SIZE then [] else ListedRows(path, entries, mb)
    else []
  }

  /** The character path+i points at: a character of path, or its terminator. */
  function CharAt(path: CString, i: int): char
    requires 0 <= i <= |path|
  {
    if i == |path| then '\0' else path[i]
  }

  /** ls's static buffers: rwx[6] for the permission column and buf[DIRSIZ+1] for the name column. */
  class LsBuffers {
    const rwx: array<char>
    const nameBuf: array<char>

    ghost predicate Valid()
      reads this, nameBuf
    {
      rwx.Length == 6 && nameBuf.Length == DIRSIZ + 1 && rwx != nameBuf && nameBuf[DIRSIZ] == '\0'
    }

    constructor ()
      ensures Valid() && fresh(rwx) && fresh(nameBuf)
    {
      rwx := new char[6](_ => '\0');
      nameBuf := new char[DIRSIZ + 1](_ => '\0');
    }

    /** rwxrwx(short mode): fills the static buffer position by position. */
    method Rwxrwx(mode: int, mb: ModeBits) returns (r: seq<char>)
      requires Valid() && ValidModeBits(mb)
      modifies rwx
      ensures Valid()
      ensures r == rwx[..] && r == PermString(ShortOf(mode), mb)
    {
      var m := ShortOf(mode);
      rwx[0] := Letter(m, mb.rusr, 'r');
      rwx[1] := Letter(m, mb.wusr, 'w');
      rwx[2] := Letter(m, mb.xusr, 'x');
      rwx[3] := Letter(m, mb.roth, 'r');
      rwx[4] := Letter(m, mb.woth, 'w');
      rwx[5] := Letter(m, mb.xoth, 'x');
      r := rwx[..];
    }

    /** fmtname's backward walk: the index just past the last '/', 0 when there is none. */
    static method LastSlashScan(path: CString) returns (start: nat)
      ensures start <= |path| && path[start..] == Basename(path)
    {
      var i: int := |path|;
      while i >= 0 && CharAt(path, i) != '/'
        invariant -1 <= i <= |path|
        invariant forall j :: i < j < |path| ==> path[j] != '/'
        decreases i + 1
      {
        i := i - 1;
      }
      start := i + 1;
      BasenameIsLastRun(path, start);
    }

    /**
     * fmtname: walks back from the terminator to the last '/', then returns
     * the rest of the path itself when it is DIRSIZ or more long, and
     * otherwise the static buffer holding it blank-padded to DIRSIZ.
     */
    method FmtName(path: CString) returns (r: seq<char>)
      requires Valid()
      modifies nameBuf
      ensures Valid()
      ensures r == Padded(path)
      ensures |Basename(path)| < DIRSIZ ==> nameBuf[..] == r + ['\0'] && UntilNul(nameBuf[..]) == r
      ensures |Basename(path)| >= DIRSIZ ==> nameBuf[..] == old(nameBuf[..])
    {
      var start := LastSlashScan(path);
      var name: CString := path[start..];
      if |name| >= DIRSIZ {
        return name;
      }
      forall j | 0 <= j < DIRSIZ {
        nameBuf[j] := if j < |name| then name[j] else ' ';
      }
      r := name + Spaces(DIRSIZ - |name|);
      assert nameBuf[..] == r + ['\0'];
      PaddedReadsBack(name);
    }

    /**
     * The directory case of ls: one row per entry, skipping unused entries,
     * entries stat cannot reach, and types other than directory and file.
     */
    method ListDir(dir: CString, entries: seq<Dirent>, mb: ModeBits) returns (rows: seq<Row>)
      requires Valid() && ValidModeBits(mb)
      modifies rwx, nameBuf
      ensures Valid()
      ensures rows == ListedRows(dir, entries, mb)
    {
      rows := [];
      var n := 0;
      while n < |entries|
        invariant 0 <= n <= |entries| && Valid()
        invariant rows == ListedRows(dir, entries[..n], mb)
      {
        ListedRowsSnoc(dir, entries, n, mb);
        var more := ListEntry(dir, entries[n], mb);
        rows := rows + more;
        n := n + 1;
      }
      assert entries[..n] == entries;
    }

    /** One pass of the directory loop: the entry's row, or nothing when it is skipped. */
    method ListEntry(dir: CString, e: Dirent, mb: ModeBits) returns (rows: seq<Row>)
      requires Valid() && ValidModeBits(mb)
      modifies rwx, nameBuf
      ensures Valid()
      ensures rows == EntryRows(dir, e, mb)
    {
      if e.inum == 0 || e.st.None? {
        return [];
      }
      var st := e.st.value;
      if st.kind == T_DIR || st.kind == T_FILE {
        var name := FmtName(dir + "/" + e.name);
        var perms := Rwxrwx(st.per, mb);
        var kind := if st.kind == T_DIR then 'd' else '-';
        return [Row(name, kind, perms)];
      }
      return [];
    }

    /** ls(path) once open and fstat have succeeded with st. */
    method Ls(path: CString, st: Stat, entries: seq<Dirent>, mb: ModeBits) returns (rows: seq<Row>)
      requires Valid() && ValidModeBits(mb)
      modifies rwx, nameBuf
      ensures Valid()
      ensures rows == LsRows(path, st, entries, mb)
    {
      rows := [];
      if st.kind == T_FILE {
        var name := FmtName(path);
        var perms := Rwxrwx(st.per, mb);
        rows := [Row(name, '-', perms)];
      } else if st.kind == T_DIR {
        if |path| + 1 + DIRSIZ + 1 > LS_BUF_SIZE {
          return;
        }
        rows := ListDir(path, entries, mb);
      }
    }
  }

  /** A blank-padded name holds no NUL, so a buffer with it and a terminator reads back as the padded name. */
  lemma PaddedReadsBack(name: CString)
    requires |name| < DIRSIZ
    ensures var p := name + Spaces(DIRSIZ - |name|);
      '\0' !in p && UntilNul(p + ['\0']) == p
  {
    var p := name + Spaces(DIRSIZ - |name|);
    assert '\0' !in p by {
      forall j | 0 <= j < |p| ensures p[j] != '\0' {
        if j < |name| { assert p[j] == name[j] && name[j] in name; }
      }
    }
    assert p + ['\0'] == p + ['\0'] + [];
    UntilNulStopsAtNul(p, []);
    UntilNulOfCString(p);
  }

  /** The run after the last '/' is the basename. */
  lemma BasenameIsLastRun(path: CString, start: nat)
    requires start <= |path|
    requires forall j :: start <= j < |path| ==> path[j] != '/'
    requires start > 0 ==> path[start - 1] == '/'
    ensures path[start..] == Basename(path)
  {
  }
}
