/**
 * The pieces of the C library that cbc_lib.c leans on, as far as the
 * model needs them: NUL-terminated strings (strlen, strcat) and buffer
 * reallocation (realloc).
 */
module LibC {
  import opened Words

  /** strlen: the index of the first NUL byte, or the whole length when there is none. */
  function Strlen(s: seq<Byte>): (n: nat)
    ensures n <= |s|
    ensures n < |s| ==> s[n] == 0
    ensures forall i :: 0 <= i < n ==> s[i] != 0
  {
    if s == [] || s[0] == 0 then 0 else 1 + Strlen(s[1..])
  }

  /** The C string a buffer holds: its bytes before the first NUL. */
  function CStr(s: seq<Byte>): (r: seq<Byte>)
    ensures r <= s && 0 !in r
  {
    s[..Strlen(s)]
  }

  /** A buffer that holds a NUL holds a terminated string. */
  lemma StrlenTerminated(s: seq<Byte>)
    requires 0 in s
    ensures Strlen(s) < |s| && s[Strlen(s)] == 0
  {
    var i :| 0 <= i < |s| && s[i] == 0;
    assert Strlen(s) <= i;
  }

  /** The first NUL of a buffer fixes its string length. */
  lemma StrlenAt(s: seq<Byte>, n: nat)
    requires n < |s| && s[n] == 0
    requires forall i :: 0 <= i < n ==> s[i] != 0
    ensures Strlen(s) == n && CStr(s) == s[..n]
  {
  }

  /** The tail of a terminated string, from any index up to its NUL, is itself terminated there. */
  lemma StrlenFrom(s: seq<Byte>, k: nat)
    requires 0 in s && k <= Strlen(s)
    ensures Strlen(s) < |s|
    ensures var a := s[k..Strlen(s) + 1]; Strlen(a) == |a| - 1 && CStr(a) == s[k..Strlen(s)]
  {
    StrlenTerminated(s);
    var len := Strlen(s);
    var a := s[k..len + 1];
    assert forall i :: 0 <= i < len - k ==> a[i] == s[k + i];
    StrlenAt(a, len - k);
  }

  /** A terminated string keeps its length and contents when more bytes follow it. */
  lemma CStrOfPrefix(a: seq<Byte>, s: seq<Byte>)
    requires |a| <= |s| && s[..|a|] == a
    requires Strlen(a) < |a|
    ensures Strlen(s) == Strlen(a) && CStr(s) == CStr(a)
  {
    var n := Strlen(a);
    assert s[n] == a[n];
    assert forall i :: 0 <= i < n ==> s[i] == a[i];
  }

  /** Appending a NUL to a buffer does not change the string it holds, and terminates it. */
  lemma CStrAppendNul(w: seq<Byte>)
    ensures Strlen(w + [0]) <= |w|
    ensures CStr(w + [0]) == CStr(w)
  {
    var s := w + [0];
    if Strlen(w) < |w| {
      CStrOfPrefix(w, s);
    } else {
      assert s[|w|] == 0;
      assert forall i :: 0 <= i < |w| ==> s[i] == w[i];
      assert s[..|w|] == w;
    }
  }

  /** A buffer holding a byte string followed by a NUL holds a terminated string: the string's prefix before its first NUL. */
  lemma CStrOfNulPadded(s: seq<Byte>, w: seq<Byte>)
    requires |s| == |w| + 1 && s[..|w|] == w && s[|w|..] == [0]
    ensures 0 in s && Strlen(s) <= |w|
    ensures CStr(s) == CStr(w)
  {
    assert s == w + [0];
    CStrAppendNul(w);
  }

  /** A buffer without a NUL is a C string of its whole length. */
  lemma CStrOfUnterminated(s: seq<Byte>)
    requires 0 !in s
    ensures CStr(s) == s
  {
  }

  /**
   * strcat: appends the string in `src` to the string in `dest`.  Both must
   * be terminated within their allocation, and `dest` must have room for
   * the joined string and its terminator.
   */
  method Strcat(dest: array<Byte>, src: array<Byte>)
    requires dest != src
    requires 0 in src[..]
    requires Strlen(dest[..]) + Strlen(src[..]) < dest.Length
    modifies dest
    ensures CStr(dest[..]) == old(CStr(dest[..])) + CStr(src[..])
    ensures Strlen(dest[..]) == old(Strlen(dest[..])) + Strlen(src[..]) < dest.Length
  {
    ghost var before := CStr(dest[..]);
    ghost var added := CStr(src[..]);
    var d := 0;
    while dest[d] != 0
      invariant d <= |before|
      decreases |before| - d
    {
      d := d + 1;
    }
    var k := 0;
    while src[k] != 0
      invariant k <= |added|
      invariant d + |added| < dest.Length
      invariant dest[..d] == before
      invariant dest[d..d + k] == added[..k]
      decreases |added| - k
    {
      dest[d + k] := src[k];
      k := k + 1;
    }
    dest[d + k] := 0;
    JoinedTerminated(dest[..], before, added);
  }

  /** A buffer holding two NUL-free strings back to back and then a NUL holds their join. */
  lemma JoinedTerminated(s: seq<Byte>, a: seq<Byte>, b: seq<Byte>)
    requires 0 !in a && 0 !in b
    requires |a| + |b| < |s|
    requires s[..|a|] == a && s[|a|..|a| + |b|] == b && s[|a| + |b|] == 0
    ensures CStr(s) == a + b
    ensures Strlen(s) < |s|
  {
    var n := |a| + |b|;
    assert s[..n] == a + b;
    assert forall i :: 0 <= i < n ==> s[i] == (a + b)[i];
    assert Strlen(s) == n;
  }

  /**
   * realloc: a buffer of `newLength` elements that starts with the old
   * contents, as far as both lengths reach.  Elements past the old length
   * are indeterminate, in C and here.
   */
  method Realloc<T(0)>(a: array<T>, newLength: nat) returns (b: array<T>)
    ensures fresh(b) && b.Length == newLength
    ensures newLength <= a.Length ==> b[..] == a[..newLength]
    ensures a.Length <= newLength ==> b[..a.Length] == a[..]
    ensures forall k :: 0 <= k < a.Length && k < newLength ==> b[k] == a[k]
  {
    b := new T[newLength];
    var m := if newLength <= a.Length then newLength else a.Length;
    for i := 0 to m
      invariant b[..i] == a[..i]
    {
      b[i] := a[i];
    }
  }

  /** realloc of a buffer that holds a terminated string: the string survives the move. */
  method ReallocString(a: array<Byte>, newLength: nat) returns (b: array<Byte>)
    requires Strlen(a[..]) < a.Length <= newLength
    ensures fresh(b) && b.Length == newLength
    ensures Strlen(b[..]) == Strlen(a[..]) && CStr(b[..]) == CStr(a[..])
  {
    b := Realloc(a, newLength);
    CStrOfPrefix(a[..], b[..]);
  }
}
