/**
 * C string conventions shared by the kernel and the user programs:
 * a C string is the run of characters before its NUL terminator, and
 * strcmp / strncmp compare such runs with the terminator taking part.
 */
module CStrings {

  datatype Option<T> = None | Some(value: T)

  /**
   * The first slot from `from` on whose flag is set.  Every loop over the
   * ten account slots in these programs, and fdalloc's loop over the
   * open-file table, is a scan of this shape, with a per-slot test
   * supplying the flags.
   */
  function FirstSet(flags: seq<bool>, from: nat): (r: Option<nat>)
    requires from <= |flags|
    ensures r.Some? ==> from <= r.value < |flags| && flags[r.value]
    ensures r.Some? ==> forall s :: from <= s < r.value ==> !flags[s]
    ensures r.None? ==> forall s :: from <= s < |flags| ==> !flags[s]
    decreases |flags| - from
  {
    if from == |flags| then None
    else if flags[from] then Some(from)
    else FirstSet(flags, from + 1)
  }

  /** A set flag with none set before it, from the start on, is the one the scan finds. */
  lemma {:induction false} FirstSetAt(flags: seq<bool>, from: nat, k: nat)
    requires from <= k < |flags| && flags[k]
    requires forall s :: from <= s < k ==> !flags[s]
    ensures FirstSet(flags, from) == Some(k)
    decreases k - from
  {
    if from < k {
      FirstSetAt(flags, from + 1, k);
    }
  }

  /** The contents of a NUL-terminated string: it holds no NUL itself. */
  type CString = s: seq<char> | '\0' !in s

  /** The C string a byte buffer holds: its bytes up to the first NUL, or all of them when it has none. */
  function UntilNul(b: seq<char>): (r: CString)
    ensures |r| <= |b| && r == b[..|r|]
    ensures |r| < |b| ==> b[|r|] == '\0'
  {
    if |b| == 0 || b[0] == '\0' then [] else [b[0]] + UntilNul(b[1..])
  }

  /** A string without NUL is read back whole. */
  lemma {:induction false} UntilNulOfCString(s: CString)
    ensures UntilNul(s) == s
  {
    if |s| > 0 {
      assert s[0] in s;
      assert '\0' !in s[1..] by {
        forall j | 0 <= j < |s[1..]| ensures s[1..][j] != '\0' { assert s[1..][j] == s[j + 1]; }
      }
      UntilNulOfCString(s[1..]);
      assert s == [s[0]] + s[1..];
    }
  }

  /** Whatever follows a NUL is not part of the string. */
  lemma {:induction false} UntilNulStopsAtNul(x: seq<char>, y: seq<char>)
    ensures UntilNul(x + ['\0'] + y) == UntilNul(x)
  {
    if |x| > 0 {
      assert (x + ['\0'] + y)[1..] == x[1..] + ['\0'] + y;
      UntilNulStopsAtNul(x[1..], y);
    }
  }

  /** A NUL-free prefix is read through. */
  lemma {:induction false} UntilNulAppend(u: CString, rest: seq<char>)
    ensures UntilNul(u + rest) == u + UntilNul(rest)
  {
    if |u| > 0 {
      assert u[0] in u;
      assert '\0' !in u[1..] by {
        forall j | 0 <= j < |u[1..]| ensures u[1..][j] != '\0' { assert u[1..][j] == u[j + 1]; }
      }
      assert (u + rest)[0] == u[0] && (u + rest)[1..] == u[1..] + rest;
      UntilNulAppend(u[1..], rest);
      calc {
        UntilNul(u + rest);
        [u[0]] + UntilNul(u[1..] + rest);
        [u[0]] + (u[1..] + UntilNul(rest));
        { assert u == [u[0]] + u[1..]; }
        u + UntilNul(rest);
      }
    } else {
      assert u + rest == rest && u + UntilNul(rest) == UntilNul(rest);
    }
  }

  /** A buffer whose first n bytes hold no NUL reads back as a string that starts with those bytes. */
  lemma UntilNulKeepsPrefix(b: seq<char>, n: nat)
    requires n <= |b| && '\0' !in b[..n]
    ensures n <= |UntilNul(b)| && UntilNul(b)[..n] == b[..n]
  {
  }

  /**
   * strncpy(dst, src + start, n): the string at start, cut at its NUL or
   * after n bytes, lands at the front of dst, and NULs fill the rest of the
   * n bytes.
   */
  method StrNCopy(dst: array<char>, src: seq<char>, start: nat, n: nat)
    requires start + n <= |src| && n <= dst.Length
    modifies dst
    ensures var u := UntilNul(src[start..start + n]);
      && (forall j :: 0 <= j < |u| ==> dst[j] == u[j])
      && (forall j :: |u| <= j < n ==> dst[j] == '\0')
      && (forall j :: n <= j < dst.Length ==> dst[j] == old(dst[j]))
  {
    ghost var t := src[start..start + n];
    ghost var u := UntilNul(t);
    var i := 0;
    while i < n && src[start + i] != '\0'
      invariant i <= |u|
      invariant forall j :: 0 <= j < i ==> dst[j] == u[j]
      invariant forall j :: n <= j < dst.Length ==> dst[j] == old(dst[j])
    {
      assert t[i] == src[start + i];
      dst[i] := src[start + i];
      i := i + 1;
    }
    if i < n {
      assert t[i] == '\0';
      UntilNulEndsBy(t, i);
    }
    while i < n
      invariant |u| <= i <= n
      invariant forall j :: 0 <= j < |u| ==> dst[j] == u[j]
      invariant forall j :: |u| <= j < i ==> dst[j] == '\0'
      invariant forall j :: n <= j < dst.Length ==> dst[j] == old(dst[j])
    {
      dst[i] := '\0';
      i := i + 1;
    }
  }

  /** The string a buffer holds ends no later than the buffer's first NUL. */
  lemma UntilNulEndsBy(b: seq<char>, i: nat)
    requires i < |b| && b[i] == '\0'
    ensures |UntilNul(b)| <= i
  {
    var r := UntilNul(b);
    assert forall j :: 0 <= j < |r| ==> r[j] == b[j] && r[j] != '\0';
  }

  /** A buffer holding u followed by a NUL, or exactly u, reads back as u. */
  lemma NulPaddedReadsBack(b: seq<char>, u: CString)
    requires |u| <= |b| && b[..|u|] == u
    requires |u| < |b| ==> b[|u|] == '\0'
    ensures UntilNul(b) == u
  {
    UntilNulOfCString(u);
    if |u| < |b| {
      assert b == u + ['\0'] + b[|u| + 1..];
      UntilNulStopsAtNul(u, b[|u| + 1..]);
    } else {
      assert b == u;
    }
  }

  /** The first n characters of s, or all of s when it is shorter. */
  function Prefix(s: seq<char>, n: nat): seq<char>
  {
    if n <= |s| then s[..n] else s
  }

  /**
   * strncmp(a, b, n) == 0: the two strings, each with its terminator,
   * agree on their first n characters (comparison stops at a common NUL).
   */
  predicate StrnEq(a: CString, b: CString, n: nat)
  {
    Prefix(a + ['\0'], n) == Prefix(b + ['\0'], n)
  }

  /** When n reaches past the terminator of either string, strncmp is plain equality. */
  lemma StrnEqWide(a: CString, b: CString, n: nat)
    requires n > |a| || n > |b|
    ensures StrnEq(a, b, n) <==> a == b
  {
    if n > |a| { StrnEqPastFirst(a, b, n); } else { StrnEqPastFirst(b, a, n); }
  }

  lemma StrnEqPastFirst(a: CString, b: CString, n: nat)
    requires n > |a|
    ensures StrnEq(a, b, n) ==> a == b
  {
    var pa, pb := a + ['\0'], b + ['\0'];
    if StrnEq(a, b, n) {
      assert Prefix(pa, n) == pa;
      assert Prefix(pb, n)[|a|] == '\0';
      assert |a| == |b|;
      assert a == pa[..|a|] == pb[..|b|] == b;
    }
  }

  /** When n stays within both strings, strncmp compares exactly their first n characters. */
  lemma StrnEqNarrow(a: CString, b: CString, n: nat)
    requires n <= |a| && n <= |b|
    ensures StrnEq(a, b, n) <==> a[..n] == b[..n]
  {
    assert (a + ['\0'])[..n] == a[..n];
    assert (b + ['\0'])[..n] == b[..n];
  }

  /** strncmp(s, "root", sizeof("root")) == 0 */
  predicate IsRoot(s: CString)
  {
    StrnEq(s, "root", 5)
  }

  /** Comparing sizeof("root") == 5 bytes accepts exactly the name "root". */
  lemma IsRootExactly(s: CString)
    ensures IsRoot(s) <==> s == "root"
  {
    StrnEqWide(s, "root", 5);
  }
}
