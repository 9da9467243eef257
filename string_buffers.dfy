/**
  * The string utilities that allocate: narrowing UTF-16, concatenation,
  * path joining, and the growable `StringArray` with the delimiter split
  * that fills one. Each allocation is a fresh Dafny array; whether the
  * allocator returns NULL is a parameter (`allocFails`) where the C code
  * checks for it. Where it does not check, success is assumed.
  */
module StringBuffers {
  import opened Wrappers
  import opened Strings
  import DynArrays

  // ---------------------------------------------------------------------
  // UTF-16 narrowing
  // ---------------------------------------------------------------------

  /** The first byte of every 16-bit unit, as a character. */
  function Narrow(utf16: seq<Byte>): (s: String)
    requires |utf16| % 2 == 0
    ensures |s| == |utf16| / 2
  {
    seq(|utf16| / 2, k requires 0 <= k < |utf16| / 2 => ToCChar(utf16[2 * k]))
  }

  /** 16-bit units laid out low byte first. */
  function EncodeLe(units: seq<nat>): (bytes: seq<Byte>)
    requires forall k :: 0 <= k < |units| ==> units[k] < 0x1_0000
    ensures |bytes| == 2 * |units|
  {
    if units == [] then []
    else [units[0] % 256, units[0] / 256] + EncodeLe(units[1..])
  }

  /** 16-bit units laid out high byte first. */
  function EncodeBe(units: seq<nat>): (bytes: seq<Byte>)
    requires forall k :: 0 <= k < |units| ==> units[k] < 0x1_0000
    ensures |bytes| == 2 * |units|
  {
    if units == [] then []
    else [units[0] / 256, units[0] % 256] + EncodeBe(units[1..])
  }

  /** Unit `k` occupies bytes `2k` (low) and `2k + 1` (high). */
  lemma {:induction false} EncodeLeAt(units: seq<nat>, k: nat)
    requires forall k :: 0 <= k < |units| ==> units[k] < 0x1_0000
    requires k < |units|
    ensures EncodeLe(units)[2 * k] == units[k] % 256
    ensures EncodeLe(units)[2 * k + 1] == units[k] / 256
    decreases k
  {
    if k > 0 {
      EncodeLeAt(units[1..], k - 1);
      assert EncodeLe(units) == [units[0] % 256, units[0] / 256] + EncodeLe(units[1..]);
    }
  }

  /** Unit `k` occupies bytes `2k` (high) and `2k + 1` (low). */
  lemma {:induction false} EncodeBeAt(units: seq<nat>, k: nat)
    requires forall k :: 0 <= k < |units| ==> units[k] < 0x1_0000
    requires k < |units|
    ensures EncodeBe(units)[2 * k] == units[k] / 256
    ensures EncodeBe(units)[2 * k + 1] == units[k] % 256
    decreases k
  {
    if k > 0 {
      EncodeBeAt(units[1..], k - 1);
      assert EncodeBe(units) == [units[0] / 256, units[0] % 256] + EncodeBe(units[1..]);
    }
  }

  /** Narrowing little-endian text keeps each unit's low byte, so text whose
      units are all below 256 comes through unchanged. */
  lemma NarrowLittleEndian(units: seq<nat>)
    requires forall k :: 0 <= k < |units| ==> units[k] < 0x1_0000
    ensures |Narrow(EncodeLe(units))| == |units|
    ensures forall k :: 0 <= k < |units| ==> Narrow(EncodeLe(units))[k] == ToCChar(units[k] % 256)
    ensures forall k :: 0 <= k < |units| && units[k] < 256 ==> Narrow(EncodeLe(units))[k] == ToCChar(units[k])
  {
    forall k | 0 <= k < |units|
      ensures Narrow(EncodeLe(units))[k] == ToCChar(units[k] % 256)
    {
      EncodeLeAt(units, k);
    }
  }

  /** Narrowing big-endian text keeps each unit's high byte: text made of
      units below 256 narrows to NULs only. */
  lemma NarrowBigEndian(units: seq<nat>)
    requires forall k :: 0 <= k < |units| ==> units[k] < 0x1_0000
    ensures |Narrow(EncodeBe(units))| == |units|
    ensures forall k :: 0 <= k < |units| ==> Narrow(EncodeBe(units))[k] == ToCChar(units[k] / 256)
    ensures forall k :: 0 <= k < |units| && units[k] < 256 ==> Narrow(EncodeBe(units))[k] == NUL
  {
    forall k | 0 <= k < |units|
      ensures Narrow(EncodeBe(units))[k] == ToCChar(units[k] / 256)
    {
      EncodeBeAt(units, k);
    }
  }

  lemma LowByte(lo: Byte, hi: Byte)
    ensures (lo + 256 * hi) % 256 == lo
  {
  }

  /** `string_from_utf16`: a buffer of `size / 2 + 1` characters. For
      Utf16None and Utf16Le each unit is read as a little-endian `uint16_t`
      and truncated to `char`; for Utf16Be its first byte is taken. Both
      give the unit's first byte. Any other byte order writes nothing and
      gives length 0. An odd size would read past the input. */
  method FromUtf16(byteOrder: int, utf16: seq<Byte>) returns (out: array<CChar>, len: nat)
    requires |utf16| % 2 == 0
    ensures fresh(out) && out.Length == |utf16| / 2 + 1
    ensures byteOrder == Utf16None || byteOrder == Utf16Le || byteOrder == Utf16Be ==>
      len == |utf16| / 2 && out[..len] == Narrow(utf16) && out[len] == NUL
    ensures !(byteOrder == Utf16None || byteOrder == Utf16Le || byteOrder == Utf16Be) ==> len == 0
  {
    out := new CChar[|utf16| / 2 + 1](_ => NUL);
    len := 0;
    if byteOrder == Utf16None || byteOrder == Utf16Le {
      var i := 0;
      while i < |utf16|
        invariant i == 2 * len && i <= |utf16|
        invariant forall k :: 0 <= k < len ==> out[k] == ToCChar(utf16[2 * k])
      {
        var c: int := utf16[i] as int + 256 * (utf16[i + 1] as int);
        LowByte(utf16[i], utf16[i + 1]);
        out[len] := ToCChar(c % 256);
        i, len := i + 2, len + 1;
      }
      out[len] := NUL;
    } else if byteOrder == Utf16Be {
      var i := 0;
      while i < |utf16|
        invariant i == 2 * len && i <= |utf16|
        invariant forall k :: 0 <= k < len ==> out[k] == ToCChar(utf16[2 * k])
      {
        out[len] := ToCChar(utf16[i]);
        i, len := i + 2, len + 1;
      }
      out[len] := NUL;
    }
  }

  // ---------------------------------------------------------------------
  // Concatenation and path joining
  // ---------------------------------------------------------------------

  /** The sum of the lengths. */
  function TotalLen(ss: seq<String>): nat
  {
    if ss == [] then 0 else TotalLen(ss[..|ss| - 1]) + |ss[|ss| - 1]|
  }

  /** The strings one after another. */
  function Flatten(ss: seq<String>): (r: String)
    ensures |r| == TotalLen(ss)
  {
    if ss == [] then [] else Flatten(ss[..|ss| - 1]) + ss[|ss| - 1]
  }

  /** One more string at the end of a prefix. */
  lemma FlattenSnoc(ss: seq<String>, i: nat)
    requires i < |ss|
    ensures Flatten(ss[..i + 1]) == Flatten(ss[..i]) + ss[i]
    ensures TotalLen(ss[..i + 1]) == TotalLen(ss[..i]) + |ss[i]|
  {
    assert ss[..i + 1][..i] == ss[..i];
  }

  lemma {:induction false} FlattenAppend(a: seq<String>, b: seq<String>)
    ensures Flatten(a + b) == Flatten(a) + Flatten(b)
    decreases |b|
  {
    if b == [] {
      assert a + b == a;
    } else {
      var n := |b|;
      var init, last := b[..n - 1], b[n - 1];
      assert (a + b)[..|a + b| - 1] == a + init && (a + b)[|a + b| - 1] == last;
      FlattenAppend(a, init);
      assert Flatten(b) == Flatten(init) + last;
    }
  }

  /** The i-th string sits in the concatenation right after the strings
      before it. */
  lemma FlattenPlacesEach(ss: seq<String>, i: nat)
    requires i < |ss|
    ensures TotalLen(ss[..i]) + |ss[i]| <= TotalLen(ss)
    ensures Flatten(ss)[TotalLen(ss[..i])..TotalLen(ss[..i]) + |ss[i]|] == ss[i]
  {
    assert ss == ss[..i + 1] + ss[i + 1..];
    FlattenAppend(ss[..i + 1], ss[i + 1..]);
    assert ss[..i + 1][..i] == ss[..i];
  }

  lemma TotalLenPrefix(ss: seq<String>, j: nat)
    requires j <= |ss|
    ensures TotalLen(ss[..j]) <= TotalLen(ss)
  {
    assert ss == ss[..j] + ss[j..];
    FlattenAppend(ss[..j], ss[j..]);
  }

  /** One round of the copying loop of `string_concat`: copy string `i`
      to `pos`, right after the strings before it. */
  method CopyString(buffer: array<CChar>, pos: nat, strings: seq<String>, i: nat, size: nat) returns (next: nat)
    requires i < |strings| && size == TotalLen(strings) && buffer.Length == size + 1
    requires pos == TotalLen(strings[..i]) <= size && buffer[..pos] == Flatten(strings[..i])
    modifies buffer
    ensures next == TotalLen(strings[..i + 1]) <= size
    ensures buffer[..next] == Flatten(strings[..i + 1])
  {
    FlattenSnoc(strings, i);
    TotalLenPrefix(strings, i + 1);
    DynArrays.MemCopy(buffer, pos, strings[i]);
    next := pos + |strings[i]|;
    assert buffer[..next] == buffer[..pos] + buffer[pos..next];
  }

  /** `string_concat`: sum the lengths, allocate one more for the NUL, copy
      the strings in order. On allocation failure the zero `String`. */
  method Concat(strings: seq<String>, allocFails: bool) returns (out: array?<CChar>, len: nat)
    ensures allocFails ==> out == null && len == 0
    ensures !allocFails ==>
      && out != null && fresh(out)
      && len == TotalLen(strings) && out.Length == len + 1
      && out[..len] == Flatten(strings) && out[len] == NUL
  {
    var size := 0;
    var i := 0;
    while i < |strings|
      invariant i <= |strings|
      invariant size == TotalLen(strings[..i])
    {
      assert strings[..i + 1][..i] == strings[..i];
      size := size + |strings[i]|;
      i := i + 1;
    }
    assert strings[..i] == strings;
    if allocFails {
      return null, 0;
    }
    var buffer := new CChar[size + 1](_ => NUL);
    var pos := 0;
    i := 0;
    while i < |strings|
      invariant i <= |strings|
      invariant pos == TotalLen(strings[..i]) <= size
      invariant buffer[..pos] == Flatten(strings[..i])
    {
      pos := CopyString(buffer, pos, strings, i, size);
      i := i + 1;
    }
    assert strings[..i] == strings;
    buffer[pos] := NUL;
    out, len := buffer, size;
  }

  const SLASH: CChar := '/' as int

  /** The strings with `d` between neighbours. */
  function Join(ps: seq<String>, d: CChar): (r: String)
    ensures |ps| >= 1 ==> |r| == TotalLen(ps) + |ps| - 1
  {
    if ps == [] then []
    else if |ps| == 1 then ps[0]
    else Join(ps[..|ps| - 1], d) + [d] + ps[|ps| - 1]
  }

  /** Joining peels off from the front as well. */
  lemma {:induction false} JoinCons(x: String, rest: seq<String>, d: CChar)
    ensures Join([x] + rest, d) == if rest == [] then x else x + [d] + Join(rest, d)
    decreases |rest|
  {
    if rest != [] {
      var n := |rest|;
      var init, last := rest[..n - 1], rest[n - 1];
      assert ([x] + rest)[..n] == [x] + init && ([x] + rest)[n] == last;
      if n > 1 {
        JoinCons(x, init, d);
        assert Join(rest, d) == Join(init, d) + [d] + last;
      } else {
        assert [x] + init == [x] && Join(rest, d) == last;
      }
    }
  }

  /** What the output holds when the C loop of `path_join` starts iteration
      `i`: the first `i` paths, each followed by the separator. */
  function JoinedSoFar(ps: seq<String>, i: nat, d: CChar): String
    requires i <= |ps|
  {
    if i == 0 then [] else if i < |ps| then Join(ps[..i], d) + [d] else Join(ps, d)
  }

  /** One round of the copying loop of `path_join`: copy path `i` to `pos`
      and, unless it is the last, a separator after it. */
  method CopyPath(buffer: array<CChar>, pos: nat, paths: seq<String>, i: nat, len: nat) returns (next: nat)
    requires i < |paths| && len == TotalLen(paths) + |paths| - 1 && buffer.Length == len + 1
    requires pos == |JoinedSoFar(paths, i, SLASH)| <= len && buffer[..pos] == JoinedSoFar(paths, i, SLASH)
    modifies buffer
    ensures next == |JoinedSoFar(paths, i + 1, SLASH)| <= len
    ensures buffer[..next] == JoinedSoFar(paths, i + 1, SLASH)
  {
    assert paths[..i + 1][..i] == paths[..i];
    TotalLenPrefix(paths, i + 1);
    var p := paths[i];
    DynArrays.MemCopy(buffer, pos, p);
    assert buffer[..pos + |p|] == buffer[..pos] + buffer[pos..pos + |p|];
    next := pos + |p|;
    assert buffer[..next] == JoinedSoFar(paths, i, SLASH) + p;
    if i + 1 != |paths| {
      buffer[next] := SLASH;
      assert buffer[..next + 1] == buffer[..next] + [SLASH];
      next := next + 1;
    }
    if i == 0 {
      assert paths[..1] == [p];
    }
    assert paths[..i + 1] == paths[..i] + [p];
  }

  /** `path_join`: the paths with '/' between them and a NUL after. The
      length is computed before allocating and is returned even when the
      allocation fails (with NULL data). At least one path is needed: with
      none the computed length is -1. */
  method PathJoin(paths: seq<String>, allocFails: bool) returns (out: array?<CChar>, len: nat)
    requires |paths| >= 1
    ensures len == TotalLen(paths) + |paths| - 1
    ensures allocFails ==> out == null
    ensures !allocFails ==>
      && out != null && fresh(out) && out.Length == len + 1
      && out[..len] == Join(paths, SLASH) && out[len] == NUL
  {
    var sepCount := |paths| - 1;
    var size := 0;
    var i := 0;
    while i < |paths|
      invariant i <= |paths|
      invariant size == TotalLen(paths[..i])
    {
      assert paths[..i + 1][..i] == paths[..i];
      size := size + |paths[i]|;
      i := i + 1;
    }
    assert paths[..i] == paths;
    len := sepCount + size;
    if allocFails {
      return null, len;
    }
    var buffer := new CChar[len + 1](_ => NUL);
    var pos := 0;
    i := 0;
    while i < |paths|
      invariant i <= |paths|
      invariant pos == |JoinedSoFar(paths, i, SLASH)| <= len
      invariant buffer[..pos] == JoinedSoFar(paths, i, SLASH)
    {
      pos := CopyPath(buffer, pos, paths, i, len);
      i := i + 1;
    }
    buffer[pos] := NUL;
    out := buffer;
  }

  // ---------------------------------------------------------------------
  // The string array
  // ---------------------------------------------------------------------

  /** `StringArray`: `strings` holds `cap` entries of which the first
      `count` are in use; it is NULL after a failed allocation. */
  class StringArray {
    var strings: array?<String>
    var count: nat
    var cap: nat

    ghost predicate Valid()
      reads this
    {
      && (strings != null ==> strings.Length == cap && count <= cap)
      && (strings == null ==> count == 0)
    }

    /** The strings in use. */
    ghost function Contents(): seq<String>
      reads this, strings
      requires Valid()
    {
      if strings == null then [] else strings[..count]
    }

    /** `StringArray sa = {0}`. */
    constructor Zero()
      ensures Valid() && strings == null && count == 0 && cap == 0
    {
      strings := null;
      count := 0;
      cap := 0;
    }

    /** `string_array_append`: double `cap` and reallocate when full, then
        store `str` at `count`. Doubling a capacity of 0 gives 0, so the
        array must have room for at least one entry. `copying` says whether
        the allocator's realloc keeps the old entries (the arena's does
        not: it hands out a fresh zero-filled region, that is, zero
        `String`s). */
    method Append(str: String, copying: bool)
      requires Valid() && strings != null && cap >= 1
      modifies this, strings
      ensures Valid() && strings != null
      ensures count == old(count) + 1
      ensures cap == (if old(count) + 1 > old(cap) then 2 * old(cap) else old(cap))
      ensures old(count) + 1 <= old(cap) ==> strings == old(strings)
      ensures old(count) + 1 > old(cap) ==> fresh(strings)
      ensures copying || old(count) + 1 <= old(cap) ==> Contents() == old(Contents()) + [str]
      ensures !copying && old(count) + 1 > old(cap) ==> Contents() == seq(old(count), _ => []) + [str]
    {
      if count + 1 > cap {
        var previous := strings;
        cap := cap * 2;
        var buffer := new String[cap](_ => []);
        if copying {
          var k := 0;
          while k < previous.Length
            invariant k <= previous.Length < buffer.Length
            invariant strings == previous && count == old(count) && cap == 2 * old(cap)
            modifies buffer
            invariant forall j :: 0 <= j < k ==> buffer[j] == previous[j]
          {
            buffer[k] := previous[k];
            k := k + 1;
          }
          assert buffer[..count] == previous[..count];
        }
        strings := buffer;
      }
      ghost var before := strings[..count];
      strings[count] := str;
      count := count + 1;
      assert strings[..count] == before + [str];
    }
  }

  /** `string_array_from_array`: a fresh array holding copies of the given
      strings, with `count` and `cap` equal to their number; the zero array
      when the allocation fails. */
  method FromArray(strings: seq<String>, allocFails: bool) returns (sa: StringArray)
    ensures fresh(sa) && sa.Valid()
    ensures allocFails ==> sa.strings == null && sa.count == 0 && sa.cap == 0
    ensures !allocFails ==>
      && sa.strings != null && fresh(sa.strings)
      && sa.cap == |strings| && sa.Contents() == strings
  {
    sa := new StringArray.Zero();
    if allocFails {
      return;
    }
    var buffer := new String[|strings|](_ => []);
    var i := 0;
    while i < |strings|
      invariant i <= |strings|
      invariant forall j :: 0 <= j < i ==> buffer[j] == strings[j]
    {
      buffer[i] := strings[i];
      i := i + 1;
    }
    sa.strings := buffer;
    sa.count := |strings|;
    sa.cap := |strings|;
    assert buffer[..|strings|] == strings;
  }

  // ---------------------------------------------------------------------
  // Splitting at a delimiter
  // ---------------------------------------------------------------------

  /** The pieces `string_split_delim` produces: scanning from the start,
      each piece runs up to the next delimiter, which is skipped; the scan
      stops at the end of the string, so a trailing delimiter adds no
      empty piece and the empty string has no pieces. */
  function Pieces(s: String, d: CChar): seq<String>
    decreases |s|
  {
    if s == [] then []
    else
      var k := IndexOf(s, d);
      if k == |s| then [s] else [s[..k]] + Pieces(s[k + 1..], d)
  }

  /** The string left to scan once the scan position is `p` (which may be
      one past the end after skipping a final delimiter). */
  function Rest(s: String, p: nat): String
  {
    if p <= |s| then s[p..] else []
  }

  /** Pieces, one level unfolded at the first delimiter. */
  lemma PiecesAtFirst(s: String, d: CChar, k: nat)
    requires s != [] && k == IndexOf(s, d)
    ensures k == |s| ==> Pieces(s, d) == [s]
    ensures k < |s| ==> Pieces(s, d) == [s[..k]] + Pieces(s[k + 1..], d)
  {
  }

  /** A string is the part before position `k`, the character there and
      the part after. */
  lemma CutAt(s: String, k: nat)
    requires k < |s|
    ensures s == s[..k] + [s[k]] + s[k + 1..]
  {
  }

  lemma IndexOfUnique(s: String, c: CChar, k: nat)
    requires k <= |s| && (k < |s| ==> s[k] == c)
    requires forall i :: 0 <= i < k ==> s[i] != c
    ensures IndexOf(s, c) == k
  {
  }

  /** No piece contains the delimiter. */
  lemma {:induction false} PiecesHaveNoDelimiter(s: String, d: CChar)
    ensures forall i :: 0 <= i < |Pieces(s, d)| ==> d !in Pieces(s, d)[i]
    decreases |s|
  {
    if s != [] {
      var k := IndexOf(s, d);
      if k < |s| {
        PiecesHaveNoDelimiter(s[k + 1..], d);
        assert forall i :: 0 <= i < k ==> s[..k][i] == s[i];
      }
    }
  }

  /** Cutting a string at its first delimiter: the delimiters are the one
      cut at plus those after it. */
  lemma CountAfterFirst(s: String, d: CChar, k: nat)
    requires k < |s| && s[k] == d
    requires forall i :: 0 <= i < k ==> s[i] != d
    ensures multiset(s)[d] == 1 + multiset(s[k + 1..])[d]
  {
    assert s == s[..k] + [d] + s[k + 1..];
    assert d !in s[..k];
    assert multiset(s) == multiset(s[..k]) + multiset{d} + multiset(s[k + 1..]);
  }

  /** There is one piece per delimiter, plus one unless the string is
      empty or ends with the delimiter; so never more than the number of
      delimiters plus one, which is the capacity `string_split_delim`
      allocates. */
  lemma {:induction false} PiecesCount(s: String, d: CChar)
    ensures |Pieces(s, d)| == multiset(s)[d] + (if s == [] || s[|s| - 1] == d then 0 else 1)
    ensures |Pieces(s, d)| <= multiset(s)[d] + 1
    decreases |s|
  {
    if s != [] {
      var k := IndexOf(s, d);
      if k == |s| {
        PiecesAtFirst(s, d, k);
        assert d !in multiset(s);
      } else {
        var r := s[k + 1..];
        PiecesAtFirst(s, d, k);
        PiecesCount(r, d);
        CountAfterFirst(s, d, k);
        if r != [] {
          assert r[|r| - 1] == s[|s| - 1];
        }
      }
    }
  }

  /** Joining a list that starts with `x`, when the rest joins to a
      non-empty `r`. */
  lemma JoinStep(ps: seq<String>, x: String, rest: seq<String>, d: CChar, r: String)
    requires ps == [x] + rest && Join(rest, d) == r && r != []
    ensures Join(ps, d) == x + [d] + r
  {
    JoinCons(x, rest, d);
  }

  /** Joining the pieces with the delimiter gives back the string, unless
      it ended with the delimiter (which the split drops). */
  lemma {:induction false} JoinPieces(s: String, d: CChar)
    requires s == [] || s[|s| - 1] != d
    ensures Join(Pieces(s, d), d) == s
    decreases |s|, 1
  {
    if s != [] {
      if IndexOf(s, d) < |s| {
        JoinPiecesAtDelimiter(s, d);
      } else {
        PiecesAtFirst(s, d, IndexOf(s, d));
        assert Join([s], d) == s;
      }
    }
  }

  /** JoinPieces for a string that holds the delimiter: the first piece,
      the delimiter, then the join of the pieces of the rest. */
  lemma {:induction false} JoinPiecesAtDelimiter(s: String, d: CChar)
    requires s != [] && s[|s| - 1] != d && IndexOf(s, d) < |s|
    ensures Join(Pieces(s, d), d) == s
    decreases |s|, 0
  {
    var k := IndexOf(s, d);
    var r := s[k + 1..];
    assert r != [] && r[|r| - 1] == s[|s| - 1];
    JoinPieces(r, d);
    JoinPiecesStep(s, d, k);
  }

  /** The step of JoinPiecesAtDelimiter once the rest is known to join
      back. */
  lemma JoinPiecesStep(s: String, d: CChar, k: nat)
    requires k == IndexOf(s, d) && k + 1 < |s|
    requires Join(Pieces(s[k + 1..], d), d) == s[k + 1..]
    ensures Join(Pieces(s, d), d) == s
  {
    PiecesAtFirst(s, d, k);
    JoinStep(Pieces(s, d), s[..k], Pieces(s[k + 1..], d), d, s[k + 1..]);
    CutAt(s, k);
  }

  /** Conversely, pieces without the delimiter whose last one is not empty
      come back unchanged from splitting their join. */
  lemma {:induction false} PiecesOfJoin(ps: seq<String>, d: CChar)
    requires |ps| >= 1 && ps[|ps| - 1] != []
    requires forall i :: 0 <= i < |ps| ==> d !in ps[i]
    ensures Pieces(Join(ps, d), d) == ps
    decreases |ps|
  {
    var x, rest := ps[0], ps[1..];
    assert ps == [x] + rest;
    JoinCons(x, rest, d);
    if rest == [] {
      IndexOfUnique(x, d, |x|);
    } else {
      var s := Join(ps, d);
      assert s == x + [d] + Join(rest, d);
      IndexOfUnique(s, d, |x|);
      assert s[..|x|] == x && s[|x| + 1..] == Join(rest, d);
      PiecesOfJoin(rest, d);
    }
  }

  /** One round of the outer scan: the piece from `p` to the next
      delimiter (or the end), then the rest after it. */
  lemma PiecesStep(s: String, d: CChar, p: nat, q: nat)
    requires p < |s| && p <= q <= |s|
    requires q < |s| ==> s[q] == d
    requires forall i :: p <= i < q ==> s[i] != d
    ensures Pieces(Rest(s, p), d) == [s[p..q]] + Pieces(Rest(s, q + 1), d)
  {
    var t := s[p..];
    assert Rest(s, p) == t;
    IndexOfUnique(t, d, q - p);
    PiecesAtFirst(t, d, q - p);
    assert t[..q - p] == s[p..q];
    if q < |s| {
      assert t[q - p + 1..] == s[q + 1..];
    } else {
      assert t == s[p..q];
    }
  }

  /** The bookkeeping of one round: moving the next piece from the pieces
      still to come to the pieces stored keeps their concatenation. */
  lemma PlacePiece(done: seq<String>, piece: String, later: seq<String>, rest: seq<String>, whole: seq<String>)
    requires done + rest == whole && rest == [piece] + later
    ensures (done + [piece]) + later == whole
    ensures |rest| == |later| + 1
  {
    assert done + ([piece] + later) == (done + [piece]) + later;
  }

  /** The inner loop of `string_split_delim`: from `first`, advance to the
      next delimiter or the end of the string. */
  method ScanToDelimiter(str: String, delim: CChar, first: nat) returns (p: nat)
    requires first <= |str|
    ensures p == IndexFrom(str, delim, first)
    ensures first <= p <= |str| && (p < |str| ==> str[p] == delim)
    ensures forall i :: first <= i < p ==> str[i] != delim
  {
    p := first;
    while p < |str| && str[p] != delim
      invariant first <= p <= |str|
      invariant IndexFrom(str, delim, p) == IndexFrom(str, delim, first)
    {
      p := p + 1;
    }
  }

  /** One round of the outer loop of `string_split_delim`: store the piece
      that starts at `first` and step past the delimiter that ends it. The
      array never fills up, since it has one entry per piece. */
  method StoreNextPiece(sa: StringArray, str: String, delim: CChar, first: nat) returns (next: nat)
    requires first < |str|
    requires sa.Valid() && sa.strings != null
    requires sa.strings[..sa.count] + Pieces(Rest(str, first), delim) == Pieces(str, delim)
    requires sa.count + |Pieces(Rest(str, first), delim)| <= sa.cap
    modifies sa, sa.strings
    ensures sa.Valid() && sa.strings == old(sa.strings) && sa.cap == old(sa.cap)
    ensures first < next <= |str| + 1
    ensures sa.strings[..sa.count] + Pieces(Rest(str, next), delim) == Pieces(str, delim)
    ensures sa.count + |Pieces(Rest(str, next), delim)| <= sa.cap
  {
    var p := ScanToDelimiter(str, delim, first);
    var piece := str[first..p];
    ghost var done := sa.strings[..sa.count];
    PiecesStep(str, delim, first, p);
    PlacePiece(done, piece, Pieces(Rest(str, p + 1), delim), Pieces(Rest(str, first), delim), Pieces(str, delim));
    sa.Append(piece, false);
    next := p + 1;
  }

  /** `string_split_delim`: count the delimiters, allocate `count + 1`
      entries, then append each piece. The capacity always suffices, so the
      array is never reallocated. When the allocation fails, the array is
      returned with NULL entries, no pieces, and `cap` already set. */
  method SplitDelim(str: String, delim: CChar, allocFails: bool) returns (sa: StringArray)
    ensures fresh(sa) && sa.Valid()
    ensures sa.cap == multiset(str)[delim] + 1
    ensures allocFails ==> sa.strings == null && sa.count == 0
    ensures !allocFails ==> sa.strings != null && fresh(sa.strings) && sa.Contents() == Pieces(str, delim)
  {
    var delimCount := CountOf(str, delim);
    sa := new StringArray.Zero();
    sa.cap := delimCount + 1;
    if allocFails {
      return;
    }
    var buffer := new String[sa.cap](_ => []);
    sa.strings := buffer;
    PiecesCount(str, delim);
    var p := 0;
    assert Rest(str, 0) == str;
    while p < |str|
      invariant p <= |str| + 1
      invariant sa.Valid() && sa.strings == buffer && sa.cap == delimCount + 1
      invariant buffer[..sa.count] + Pieces(Rest(str, p), delim) == Pieces(str, delim)
      invariant sa.count + |Pieces(Rest(str, p), delim)| <= sa.cap
      modifies sa, buffer
      decreases |str| + 1 - p
    {
      p := StoreNextPiece(sa, str, delim, p);
    }
    assert Rest(str, p) == [];
    assert sa.strings[..sa.count] == Pieces(str, delim);
  }
}
