/**
  The C library string routines the firmware relies on (strncmp, strstr,
  strlen), stated over character sequences. A C string is modelled by the
  characters before its terminator; a routine that reads past the end of such
  a string reads the terminator.
 */
module LibC {

  /** A pointer that may be NULL, or a search that may fail. */
  datatype Option<+T> = None | Some(value: T)

  /** The largest size_t on the 32-bit target. */
  const SIZE_MAX: nat := 0xFFFF_FFFF

  const NUL: char := '\0'

  /** The characters of a NUL-terminated string, without the terminator. */
  type CString = s: string | NUL !in s && |s| <= SIZE_MAX

  /** The character a C routine reads at index i of s. */
  function At(s: CString, i: nat): (c: char)
    ensures c == NUL <==> i >= |s|
    ensures i < |s| ==> c == s[i]
  {
    if i < |s| then s[i] else NUL
  }

  /** `strncmp(a, b, n) == 0`: compare character by character, at most n
      of them, and stop early at a terminator both strings share. It holds
      exactly when both strings read the same at each of the first n
      positions, a terminator counting as read past the end. */
  predicate StrNCmpZero(a: CString, b: CString, n: nat)
    decreases n
    ensures StrNCmpZero(a, b, n) <==> forall k :: 0 <= k < n ==> At(a, k) == At(b, k)
  {
    if n == 0 then true
    else if At(a, 0) != At(b, 0) then false
    else if At(a, 0) == NUL then true
    else
      assert forall k: nat :: At(a[1..], k) == At(a, k + 1) && At(b[1..], k) == At(b, k + 1);
      assert (forall k :: 0 <= k < n ==> At(a, k) == At(b, k)) <==>
             (forall k :: 0 <= k < n - 1 ==> At(a[1..], k) == At(b[1..], k)) by {
        if forall k :: 0 <= k < n - 1 ==> At(a[1..], k) == At(b[1..], k) {
          forall k | 1 <= k < n ensures At(a, k) == At(b, k) {
            assert At(a[1..], k - 1) == At(b[1..], k - 1);
          }
        }
      }
      StrNCmpZero(a[1..], b[1..], n - 1)
  }

  /** What `strncmp(a, b, n) == 0` means: when n reaches no further than a's
      terminator, both strings have the same first n characters; otherwise
      the comparison meets a's terminator and the strings are equal. */
  lemma {:induction false} StrNCmpZeroMeaning(a: CString, b: CString, n: nat)
    ensures StrNCmpZero(a, b, n) <==>
              if n <= |a| then n <= |b| && a[..n] == b[..n] else a == b
  {
    if n > 0 && |a| > 0 && |b| > 0 {
      StrNCmpZeroMeaning(a[1..], b[1..], n - 1);
      assert a == [a[0]] + a[1..] && b == [b[0]] + b[1..];
      if n <= |a| && n <= |b| {
        assert a[..n] == [a[0]] + a[1..][..n - 1];
        assert b[..n] == [b[0]] + b[1..][..n - 1];
      }
    } else if n > 0 && |a| > 0 {
      assert At(b, 0) == NUL != At(a, 0);
    } else if n > 0 && |b| > 0 {
      assert At(a, 0) == NUL != At(b, 0);
    }
  }

  /** The needle occurs in the haystack at index i. */
  predicate OccursAt(hay: string, needle: string, i: nat) {
    i + |needle| <= |hay| && hay[i..i + |needle|] == needle
  }

  /** The first occurrence of the needle at or after index `from`. */
  function SearchFrom(hay: string, needle: string, from: nat): (r: Option<nat>)
    requires from <= |hay|
    decreases |hay| - from
    ensures r.Some? ==> from <= r.value && OccursAt(hay, needle, r.value)
    ensures r.Some? ==> forall j :: from <= j < r.value ==> !OccursAt(hay, needle, j)
    ensures r.None? ==> forall j: nat :: from <= j ==> !OccursAt(hay, needle, j)
  {
    if OccursAt(hay, needle, from) then Some(from)
    else if from == |hay| then None
    else SearchFrom(hay, needle, from + 1)
  }

  /** `strstr(hay, needle)`: the index of the first occurrence of the needle,
      or None where the C routine returns NULL. */
  function StrStr(hay: string, needle: string): (r: Option<nat>)
    ensures r.Some? ==> OccursAt(hay, needle, r.value)
    ensures r.Some? ==> forall j :: 0 <= j < r.value ==> !OccursAt(hay, needle, j)
    ensures r.None? <==> forall j: nat :: !OccursAt(hay, needle, j)
  {
    SearchFrom(hay, needle, 0)
  }

  /** `strlen` over a character buffer: the index of its first terminator
      (the whole buffer when it holds none). */
  function StrLen(buf: seq<char>): (n: nat)
    ensures n <= |buf| && NUL !in buf[..n]
    ensures n < |buf| ==> buf[n] == NUL
  {
    if |buf| == 0 || buf[0] == NUL then 0
    else
      assert buf == [buf[0]] + buf[1..];
      1 + StrLen(buf[1..])
  }

  /** The C string a buffer holds: its characters before the first
      terminator. */
  function ReadCString(buf: seq<char>): (s: string)
    ensures NUL !in s && |s| <= |buf| && s == buf[..|s|]
    ensures |s| < |buf| ==> buf[|s|] == NUL
  {
    buf[..StrLen(buf)]
  }

  /** A buffer whose first n characters hold no terminator and which has one
      at index n (or ends there) holds the C string of those n characters. */
  lemma ReadCStringAt(buf: seq<char>, n: nat)
    requires n <= |buf| && NUL !in buf[..n]
    requires n < |buf| ==> buf[n] == NUL
    ensures StrLen(buf) == n && ReadCString(buf) == buf[..n]
  {
    var m := StrLen(buf);
    assert forall k :: 0 <= k < n ==> buf[..n][k] == buf[k];
    assert forall k :: 0 <= k < m ==> buf[..m][k] == buf[k];
  }

  /** A buffer that holds s followed by a terminator reads back as s,
      whatever follows the terminator. */
  lemma StrLenOfTerminated(s: CString, rest: seq<char>)
    ensures StrLen(s + [NUL] + rest) == |s|
    ensures ReadCString(s + [NUL] + rest) == s
  {
    var buf := s + [NUL] + rest;
    assert buf[..|s|] == s;
    ReadCStringAt(buf, |s|);
  }
}
