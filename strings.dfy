/**
  * The length-delimited `String` of the string utilities: a view of `len`
  * C `char`s. `char` is taken to be signed, as on x86-64, so a character
  * is an integer in -128..127, and converting a byte to it keeps the value
  * modulo 256.
  *
  * This module holds the operations that only read strings; the ones that
  * allocate and fill buffers are in module StringBuffers.
  */
module Strings {
  import opened Wrappers

  /** A signed C `char`. */
  type CChar = c: int | -128 <= c < 128

  /** `u8`. */
  type Byte = b: int | 0 <= b < 256

  /** The characters a `String` views (its `data[0 .. len)`). */
  type String = seq<CChar>

  const NUL: CChar := 0

  /** Conversion of a `u8` to `char`: the same value modulo 256. */
  function ToCChar(b: Byte): (c: CChar)
    ensures (c as int) % 256 == b
  {
    if b < 128 then b else b - 256
  }

  /** Conversion of a `char` to `u8`. */
  function ToByte(c: CChar): (b: Byte)
    ensures b == (c as int) % 256
  {
    if c >= 0 then c else c + 256
  }

  /** Byte and char conversion lose nothing in either direction. */
  lemma ByteCharRoundTrip(b: Byte, c: CChar)
    ensures ToByte(ToCChar(b)) == b
    ensures ToCChar(ToByte(c)) == c
  {
  }

  /** Index of the first occurrence of `c` in `s`, or `|s|` if there is
      none. */
  function IndexOf(s: String, c: CChar): (r: nat)
    ensures r <= |s|
    ensures r < |s| ==> s[r] == c
    ensures forall i :: 0 <= i < r ==> s[i] != c
  {
    IndexFrom(s, c, 0)
  }

  /** The scan behind IndexOf, from position `i` on. */
  function IndexFrom(s: String, c: CChar, i: nat): (r: nat)
    requires i <= |s|
    ensures i <= r <= |s|
    ensures r < |s| ==> s[r] == c
    ensures forall j :: i <= j < r ==> s[j] != c
    decreases |s| - i
  {
    if i == |s| then i
    else if s[i] == c then i
    else IndexFrom(s, c, i + 1)
  }

  /** `string_len`: count the characters before the terminating NUL. The
      memory must hold a NUL somewhere. */
  method StringLen(cstr: seq<CChar>) returns (len: nat)
    requires NUL in cstr
    ensures len < |cstr| && cstr[len] == NUL
    ensures NUL !in cstr[..len]
  {
    len := 0;
    while cstr[len] != NUL
      invariant len <= IndexOf(cstr, NUL) < |cstr|
      decreases IndexOf(cstr, NUL) - len
    {
      len := len + 1;
    }
  }

  /** `string`: view a C string as a `String`. The view stops before the
      NUL, which stays in memory right after it. */
  method FromCString(cstr: seq<CChar>) returns (s: String)
    requires NUL in cstr
    ensures NUL !in s
    ensures |s| < |cstr| && cstr[..|s| + 1] == s + [NUL]
  {
    var len := StringLen(cstr);
    s := cstr[..len];
    assert cstr[..len + 1] == cstr[..len] + [cstr[len]];
  }

  /** `string_from_bytes`: view the first `len` bytes as characters. */
  function FromBytes(bytes: seq<Byte>, len: nat): (s: String)
    requires len <= |bytes|
    ensures |s| == len
    ensures forall i :: 0 <= i < len ==> (s[i] as int) % 256 == bytes[i]
  {
    seq(len, i requires 0 <= i < len => ToCChar(bytes[i]))
  }

  /** The bytes a string is made of. */
  function ToBytes(s: String): (bytes: seq<Byte>)
    ensures |bytes| == |s|
    ensures forall i :: 0 <= i < |s| ==> bytes[i] == (s[i] as int) % 256
  {
    seq(|s|, i requires 0 <= i < |s| => ToByte(s[i]))
  }

  /** Viewing bytes as a string and reading the bytes back loses nothing,
      and neither does the other direction. */
  lemma FromBytesRoundTrip(bytes: seq<Byte>, s: String)
    ensures ToBytes(FromBytes(bytes, |bytes|)) == bytes
    ensures FromBytes(ToBytes(s), |s|) == s
  {
    assert forall i :: 0 <= i < |bytes| ==> ToByte(ToCChar(bytes[i])) == bytes[i];
    assert forall i :: 0 <= i < |s| ==> ToCChar(ToByte(s[i])) == s[i];
  }

  /** The `Utf16BOMKind` values. */
  const Utf16None: int := -1
  const Utf16Le: int := 0
  const Utf16Be: int := 1

  /** `string16_bom`: the byte order named by a leading 16-bit unit. */
  function Utf16Bom(firstChar: nat): (r: int)
    requires firstChar < 0x1_0000
    ensures r == Utf16Le <==> firstChar == 0xfffe
    ensures r == Utf16Be <==> firstChar == 0xfeff
    ensures r == Utf16None <==> firstChar != 0xfffe && firstChar != 0xfeff
  {
    if firstChar == 0xfffe then Utf16Le
    else if firstChar == 0xfeff then Utf16Be
    else Utf16None
  }

  /** `string_match`: equal lengths and equal characters. (The C shortcut
      for two views of the same memory gives the same answer.) */
  method Match(a: String, b: String) returns (r: bool)
    ensures r <==> a == b
  {
    if |a| != |b| {
      return false;
    }
    var i := 0;
    while i < |a|
      invariant i <= |a|
      invariant a[..i] == b[..i]
    {
      if a[i] != b[i] {
        return false;
      }
      assert a[..i + 1] == a[..i] + [a[i]];
      assert b[..i + 1] == b[..i] + [b[i]];
      i := i + 1;
    }
    assert a == a[..i] && b == b[..i];
    return true;
  }

  function Abs(x: int): nat
  {
    if x < 0 then -x else x
  }

  /** The total that `string_match_no_case` accumulates over the first `n`
      positions: every non-zero difference except those of exactly 32. */
  function DiffSum(a: String, b: String, n: nat): int
    requires n <= |a| && n <= |b|
  {
    if n == 0 then 0
    else
      var d := a[n - 1] as int - b[n - 1] as int;
      DiffSum(a, b, n - 1) + (if d != 0 && Abs(d) != 32 then d else 0)
  }

  /** What `string_match_no_case` computes, as written. */
  predicate NoCaseAsWritten(a: String, b: String)
  {
    |a| == |b| && DiffSum(a, b, |a|) == 0
  }

  /** `string_match_no_case`, with the loop of the C code. */
  method MatchNoCase(a: String, b: String) returns (r: bool)
    ensures r <==> NoCaseAsWritten(a, b)
  {
    if |a| != |b| {
      return false;
    }
    var diff: int := 0;
    var caseDiff := 32;
    var i := 0;
    while i < |a|
      invariant i <= |a|
      invariant diff == DiffSum(a, b, i)
    {
      var d := a[i] as int - b[i] as int;
      if d != 0 {
        if Abs(d) != caseDiff {
          diff := diff + d;
        }
      }
      i := i + 1;
    }
    r := diff == 0;
  }

  /** The sum changes sign when the operands are swapped. */
  lemma {:induction false} DiffSumAntisymmetric(a: String, b: String, n: nat)
    requires n <= |a| && n <= |b|
    ensures DiffSum(b, a, n) == -DiffSum(a, b, n)
  {
    if n > 0 {
      DiffSumAntisymmetric(a, b, n - 1);
    }
  }

  /** The comparison is symmetric, and equal strings match. */
  lemma NoCaseAsWrittenSymmetric(a: String, b: String)
    ensures NoCaseAsWritten(a, b) <==> NoCaseAsWritten(b, a)
    ensures a == b ==> NoCaseAsWritten(a, b)
  {
    if |a| == |b| {
      DiffSumAntisymmetric(a, b, |a|);
      if a == b { EqualDiffSumZero(a, |a|); }
    }
  }

  lemma {:induction false} EqualDiffSumZero(a: String, n: nat)
    requires n <= |a|
    ensures DiffSum(a, a, n) == 0
  {
    if n > 0 { EqualDiffSumZero(a, n - 1); }
  }

  // ---------------------------------------------------------------------
  // Case-insensitive comparison as evidently intended
  // ---------------------------------------------------------------------

  /** ASCII upper case to lower case; everything else unchanged. */
  function FoldCase(c: CChar): CChar
  {
    if 'A' as int <= c <= 'Z' as int then c + 32 else c
  }

  /** Equal lengths, and equal characters after folding ASCII case. */
  predicate CaseFoldMatch(a: String, b: String)
  {
    |a| == |b| && forall i :: 0 <= i < |a| ==> FoldCase(a[i]) == FoldCase(b[i])
  }

  /** Two characters are equal up to ASCII case exactly when they are equal
      or are the upper- and lower-case forms of one letter. */
  lemma FoldCaseMeaning(x: CChar, y: CChar)
    ensures FoldCase(x) == FoldCase(y) <==>
      x == y
      || ('A' as int <= x <= 'Z' as int && y == x + 32)
      || ('A' as int <= y <= 'Z' as int && x == y + 32)
  {
  }

  /** Comparison ignoring ASCII case, a position at a time. */
  method MatchIgnoringCase(a: String, b: String) returns (r: bool)
    ensures r <==> CaseFoldMatch(a, b)
  {
    if |a| != |b| {
      return false;
    }
    var i := 0;
    while i < |a|
      invariant i <= |a|
      invariant forall k :: 0 <= k < i ==> FoldCase(a[k]) == FoldCase(b[k])
    {
      if FoldCase(a[i]) != FoldCase(b[i]) {
        return false;
      }
      i := i + 1;
    }
    return true;
  }

  lemma {:induction false} CaseFoldDiffSumZero(a: String, b: String, n: nat)
    requires n <= |a| && n <= |b|
    requires forall i :: 0 <= i < n ==> FoldCase(a[i]) == FoldCase(b[i])
    ensures DiffSum(a, b, n) == 0
  {
    if n > 0 {
      FoldCaseMeaning(a[n - 1], b[n - 1]);
      CaseFoldDiffSumZero(a, b, n - 1);
    }
  }

  /** Every pair the intended comparison accepts is accepted by the code as
      written: the discrepancies are all extra matches. */
  lemma CaseFoldMatchImpliesAsWritten(a: String, b: String)
    ensures CaseFoldMatch(a, b) ==> NoCaseAsWritten(a, b)
  {
    if CaseFoldMatch(a, b) {
      CaseFoldDiffSumZero(a, b, |a|);
    }
  }

  /** As written, differences at different positions cancel: "ab" matches
      "ba". */
  lemma NoCaseAsWrittenAcceptsSwappedLetters()
    ensures NoCaseAsWritten(['a' as int, 'b' as int], ['b' as int, 'a' as int])
    ensures !CaseFoldMatch(['a' as int, 'b' as int], ['b' as int, 'a' as int])
  {
    var a: String := ['a' as int, 'b' as int];
    var b: String := ['b' as int, 'a' as int];
    assert DiffSum(a, b, 1) == -1;
    assert FoldCase(a[0]) != FoldCase(b[0]);
  }

  /** As written, any two characters 32 apart count as one letter in two
      cases: "0" matches "P". */
  lemma NoCaseAsWrittenAcceptsNonLetters()
    ensures NoCaseAsWritten(['0' as int], ['P' as int])
    ensures !CaseFoldMatch(['0' as int], ['P' as int])
  {
    var a: String := ['0' as int];
    var b: String := ['P' as int];
    assert DiffSum(a, b, 1) == 0;
    assert FoldCase(a[0]) != FoldCase(b[0]);
  }

  // ---------------------------------------------------------------------
  // Counting and splitting at a character
  // ---------------------------------------------------------------------

  /** `string_get_count_of`: the number of positions holding `c`. */
  method CountOf(s: String, c: CChar) returns (count: nat)
    ensures count == multiset(s)[c]
  {
    count := 0;
    var i := 0;
    while i < |s|
      invariant i <= |s|
      invariant count == multiset(s[..i])[c]
    {
      assert s[..i + 1] == s[..i] + [s[i]];
      if s[i] == c {
        count := count + 1;
      }
      i := i + 1;
    }
    assert s[..i] == s;
  }

  /** What `string_split_until` returns: the part before the first `c`, or
      the zero `String` (None) when there is no `c`. */
  function BeforeFirst(s: String, c: CChar): Option<String>
  {
    var k := IndexOf(s, c);
    if k == |s| then None else Some(s[..k])
  }

  /** What `string_split_after` returns: the part from the first `c` on, or
      the zero `String` (None) when there is no `c`. */
  function FromFirst(s: String, c: CChar): Option<String>
  {
    var k := IndexOf(s, c);
    if k == |s| then None else Some(s[k..])
  }

  /** Both splits succeed exactly when `c` occurs; the first part holds no
      `c`, the second starts with it, and together they are the string. */
  lemma SplitsRecompose(s: String, c: CChar)
    ensures BeforeFirst(s, c).Some? <==> c in s
    ensures FromFirst(s, c).Some? <==> c in s
    ensures c in s ==>
      var before, after := BeforeFirst(s, c).value, FromFirst(s, c).value;
      && c !in before
      && |after| >= 1 && after[0] == c
      && before + after == s
  {
    if c in s {
      var k := IndexOf(s, c);
      assert s[..k] + s[k..] == s;
    }
  }

  /** `string_split_until`, scanning as the C code does. */
  method SplitUntil(s: String, c: CChar) returns (r: Option<String>)
    ensures r == BeforeFirst(s, c)
  {
    var i := 0;
    while i < |s|
      invariant i <= |s|
      invariant forall k :: 0 <= k < i ==> s[k] != c
    {
      if s[i] == c {
        return Some(s[..i]);
      }
      i := i + 1;
    }
    return None;
  }

  /** `string_split_after`, scanning as the C code does. */
  method SplitAfter(s: String, c: CChar) returns (r: Option<String>)
    ensures r == FromFirst(s, c)
  {
    var i := 0;
    while i < |s|
      invariant i <= |s|
      invariant forall k :: 0 <= k < i ==> s[k] != c
    {
      if s[i] == c {
        return Some(s[i..]);
      }
      i := i + 1;
    }
    return None;
  }
}
