/**
 * NUL-terminated character buffers as the C code sees them, and the parts of
 * the C library the engine relies on: strchr, strlen and strtol (base 10), the
 * last as specified for the "C" locale with a 64-bit long, and the
 * conversion of a long to a 64-bit size_t.
 */
module CString {
  import opened Wrappers

  const NUL: char := '\0'

  /** The C string that starts at offset p of buffer s: the characters up to the first NUL (or the end). */
  function CStr(s: seq<char>, p: nat): (r: string)
    ensures NUL !in r
    ensures p <= |s| ==> |r| <= |s| - p && r == s[p..p + |r|]
    ensures p <= |s| ==> p + |r| == |s| || s[p + |r|] == NUL
    decreases |s| - p
  {
    if p >= |s| || s[p] == NUL then [] else [s[p]] + CStr(s, p + 1)
  }

  /** A C string is the slice up to a NUL that no earlier character matches. */
  lemma {:induction false} CStrSlice(s: seq<char>, p: nat, q: nat)
    requires p <= q <= |s|
    requires q < |s| ==> s[q] == NUL
    requires forall i :: p <= i < q ==> s[i] != NUL
    ensures CStr(s, p) == s[p..q]
    decreases q - p
  {
    if p < q {
      CStrSlice(s, p + 1, q);
    }
  }

  /** Index of the first occurrence of c in s. */
  function IndexOf(s: string, c: char): (r: Option<nat>)
    ensures r.Some? ==> r.value < |s| && s[r.value] == c && c !in s[..r.value]
    ensures r.None? ==> c !in s
  {
    if |s| == 0 then None
    else if s[0] == c then Some(0)
    else match IndexOf(s[1..], c)
      case None => None
      case Some(i) => Some(i + 1)
  }

  /** strchr(a + from, c) for c != NUL: the first offset at or after from holding c before the terminator. */
  method StrChr(a: array<char>, from: nat, c: char) returns (r: Option<nat>)
    requires c != NUL && from <= a.Length
    ensures r.Some? <==> IndexOf(CStr(a[..], from), c).Some?
    ensures r.Some? ==> r.value == from + IndexOf(CStr(a[..], from), c).value
  {
    var i := from;
    while i < a.Length && a[i] != NUL && a[i] != c
      invariant from <= i <= a.Length
      invariant forall j :: from <= j < i ==> a[j] != NUL && a[j] != c
    {
      i := i + 1;
    }
    StrChrStop(a[..], from, i, c);
    if i < a.Length && a[i] == c {
      r := Some(i);
    } else {
      r := None;
    }
  }

  /** Where the scan of StrChr stops, it has found c, or the C string holds no c. */
  lemma StrChrStop(s: seq<char>, from: nat, i: nat, c: char)
    requires c != NUL && from <= i <= |s|
    requires forall j :: from <= j < i ==> s[j] != NUL && s[j] != c
    requires i == |s| || s[i] == NUL || s[i] == c
    ensures i < |s| && s[i] == c ==> IndexOf(CStr(s, from), c) == Some(i - from)
    ensures !(i < |s| && s[i] == c) ==> IndexOf(CStr(s, from), c) == None
  {
    CStrSplit(s, from, i);
    var u := s[from..i];
    assert c !in u by {
      forall k | 0 <= k < |u| ensures u[k] != c {
        assert u[k] == s[from + k];
      }
    }
    if i < |s| && s[i] == c {
      IndexOfAfter(u, c, CStr(s, i));
    } else {
      assert CStr(s, i) == [];
      assert u + CStr(s, i) == u;
    }
  }

  /** strlen(a + from). */
  method StrLen(a: array<char>, from: nat) returns (n: nat)
    requires from <= a.Length
    ensures n == |CStr(a[..], from)|
    ensures from + n < a.Length ==> a[from + n] == NUL
  {
    n := 0;
    while from + n < a.Length && a[from + n] != NUL
      invariant from + n <= a.Length
      invariant forall j :: from <= j < from + n ==> a[j] != NUL
    {
      n := n + 1;
    }
    CStrSlice(a[..], from, from + n);
  }

  /** The C string at p is the run of non-NUL characters before q followed by the C string at q. */
  lemma {:induction false} CStrSplit(s: seq<char>, p: nat, q: nat)
    requires p <= q <= |s|
    requires forall i :: p <= i < q ==> s[i] != NUL
    ensures CStr(s, p) == s[p..q] + CStr(s, q)
    decreases q - p
  {
    if p < q {
      CStrSplit(s, p + 1, q);
    }
  }

  lemma {:induction false} IndexOfAfter(u: string, c: char, v: string)
    requires c !in u && |v| > 0 && v[0] == c
    ensures IndexOf(u + v, c) == Some(|u|)
  {
    if |u| > 0 {
      assert (u + v)[1..] == u[1..] + v;
      IndexOfAfter(u[1..], c, v);
    }
  }

  // ---- strtol(nptr, &endptr, 10) ----

  const LongMin: int := -0x8000_0000_0000_0000
  const LongMax: int := 0x7fff_ffff_ffff_ffff
  const SizeMax: int := 0xffff_ffff_ffff_ffff

  /** isspace in the "C" locale. */
  predicate IsSpace(c: char) {
    c == ' ' || c == '\t' || c == '\n' || c == '\U{B}' || c == '\U{C}' || c == '\r'
  }

  predicate IsDigit(c: char) {
    '0' <= c <= '9'
  }

  /** Length of the longest prefix of s whose characters satisfy the class. */
  function SpanSpaces(s: string): (n: nat)
    ensures n <= |s| && (forall i :: 0 <= i < n ==> IsSpace(s[i])) && (n < |s| ==> !IsSpace(s[n]))
  {
    if |s| > 0 && IsSpace(s[0]) then 1 + SpanSpaces(s[1..]) else 0
  }

  function SpanDigits(s: string): (n: nat)
    ensures n <= |s| && (forall i :: 0 <= i < n ==> IsDigit(s[i])) && (n < |s| ==> !IsDigit(s[n]))
  {
    if |s| > 0 && IsDigit(s[0]) then 1 + SpanDigits(s[1..]) else 0
  }

  function DigitValue(c: char): (d: nat)
    requires IsDigit(c)
    ensures d <= 9
  {
    (c as int) - ('0' as int)
  }

  /** Value of a run of decimal digits, most significant first. */
  function DigitsValue(s: string): (r: nat)
    requires forall i :: 0 <= i < |s| ==> IsDigit(s[i])
  {
    if |s| == 0 then 0 else 10 * DigitsValue(s[..|s| - 1]) + DigitValue(s[|s| - 1])
  }

  function Clamp(v: int, lo: int, hi: int): (r: int)
    requires lo <= hi
  {
    if v < lo then lo else if v > hi then hi else v
  }

  datatype Parsed = Parsed(value: int, end: nat)

  /**
   * strtol with base 10: skips leading white space, takes an optional sign and
   * the longest run of digits, clamps to the range of long. `end` is the
   * offset endptr points to: just after the digits, or 0 when there are none.
   */
  function StrToL(s: string): (r: Parsed)
    ensures r.end <= |s|
    ensures LongMin <= r.value <= LongMax
  {
    var ws := SpanSpaces(s);
    var sign := if ws < |s| && (s[ws] == '+' || s[ws] == '-') then 1 else 0;
    var nd := SpanDigits(s[ws + sign..]);
    if nd == 0 then Parsed(0, 0)
    else
      var magnitude: int := DigitsValue(s[ws + sign..ws + sign + nd]);
      var v: int := if sign == 1 && s[ws] == '-' then -magnitude else magnitude;
      Parsed(Clamp(v, LongMin, LongMax), ws + sign + nd)
  }

  /** With no digit to convert, strtol converts nothing: the value is 0 and endptr is the start. */
  lemma StrToLNoDigits(s: string)
    requires forall i :: 0 <= i < |s| ==> !IsDigit(s[i])
    ensures StrToL(s) == Parsed(0, 0)
  {
    var ws := SpanSpaces(s);
    var sign := if ws < |s| && (s[ws] == '+' || s[ws] == '-') then 1 else 0;
    var rest := s[ws + sign..];
    if |rest| > 0 {
      assert rest[0] == s[ws + sign];
    }
  }

  /** The conversion `(size_t) v` of a long to a 64-bit unsigned size_t: reduction modulo 2^64. */
  function SizeT(v: int): (r: nat)
    ensures r <= SizeMax
    ensures 0 <= v <= SizeMax ==> r == v
  {
    v % (SizeMax + 1)
  }

  /** A negative long never converts to a small size_t: it lands at 2^63 or above. */
  lemma NegativeSizeTIsHuge(v: int)
    requires LongMin <= v < 0
    ensures SizeT(v) > LongMax
  {
  }
}
