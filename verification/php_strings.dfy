/** The PHP 7 string built-ins the converter calls: `strpos`, `strrpos`, `str_replace`, `trim`,
    `rtrim`, `strtolower`, `preg_split('/\s+/')`, `explode`, `implode`, `substr` and `bin2hex`. */
module PhpStrings {
  import opened Wrappers

  type byte = x: int | 0 <= x < 256

  predicate OccursAt(h: string, n: string, j: int) {
    0 <= j && j + |n| <= |h| && h[j..j + |n|] == n
  }

  /** `strpos($h, $n, $offset)` for a non-negative offset. PHP 7 returns false for an empty
      needle and for an offset past the end of the haystack. */
  function Strpos(h: string, n: string, offset: nat): (r: Option<nat>)
    ensures r.Some? ==> n != [] && offset <= r.value && OccursAt(h, n, r.value)
    ensures r.Some? ==> forall j :: offset <= j < r.value ==> !OccursAt(h, n, j)
    ensures r.None? ==> n == [] || forall j :: offset <= j ==> !OccursAt(h, n, j)
    decreases |h| - offset
  {
    if n == [] || offset + |n| > |h| then None
    else if h[offset..offset + |n|] == n then Some(offset)
    else Strpos(h, n, offset + 1)
  }

  /** The last occurrence of `n` lying wholly inside `h[lo..hi]`. */
  function LastOccurrence(h: string, n: string, lo: nat, hi: nat): (r: Option<nat>)
    requires hi <= |h| && n != []
    ensures r.Some? ==> lo <= r.value && r.value + |n| <= hi && OccursAt(h, n, r.value)
    ensures r.Some? ==> forall j :: r.value < j && j + |n| <= hi ==> !OccursAt(h, n, j)
    ensures r.None? ==> forall j :: lo <= j && j + |n| <= hi ==> !OccursAt(h, n, j)
    decreases hi
  {
    if hi < lo + |n| then None
    else if h[hi - |n|..hi] == n then Some(hi - |n|)
    else
      var r := LastOccurrence(h, n, lo, hi - 1);
      assert !OccursAt(h, n, hi - |n|);
      r
  }

  /** `strrpos($h, $n, $offset)` as PHP 7 computes it: false for an empty haystack or needle and
      for an offset whose magnitude exceeds the haystack; a non-negative offset searches
      `h[offset..]`; a negative one searches occurrences starting at most `|h| + offset`
      characters in (or anywhere, when the needle is longer than `-offset`). */
  function Strrpos(h: string, n: string, offset: int): (r: Option<nat>)
    ensures r.Some? ==> OccursAt(h, n, r.value)
  {
    if |h| == 0 || |n| == 0 then None
    else if offset >= 0 then
      if offset > |h| then None else LastOccurrence(h, n, offset, |h|)
    else if -offset > |h| then None
    else LastOccurrence(h, n, 0, if -offset < |n| then |h| else |h| + offset + |n|)
  }

  /** `str_replace($search, $replace, $s)`: every occurrence, left to right, without overlap;
      an empty search string leaves the subject alone. */
  function StrReplace(s: string, search: string, replace: string): string
    decreases |s|
  {
    if search == [] || |s| < |search| then s
    else if s[..|search|] == search then replace + StrReplace(s[|search|..], search, replace)
    else [s[0]] + StrReplace(s[1..], search, replace)
  }

  /** A leading occurrence is replaced and the scan resumes after it. */
  lemma {:induction false} StrReplaceLeading(search: string, x: string, replace: string)
    requires search != []
    ensures StrReplace(search + x, search, replace) == replace + StrReplace(x, search, replace)
  {
    assert (search + x)[..|search|] == search;
    assert (search + x)[|search|..] == x;
  }

  /** A subject without the search string is returned unchanged by `str_replace`. */
  lemma {:induction false} StrReplaceWithoutOccurrence(s: string, search: string, replace: string)
    requires forall j :: !OccursAt(s, search, j)
    ensures StrReplace(s, search, replace) == s
    decreases |s|
  {
    if search != [] && |s| >= |search| {
      assert !OccursAt(s, search, 0);
      forall j ensures !OccursAt(s[1..], search, j) {
        if OccursAt(s[1..], search, j) {
          assert s[1..][j..j + |search|] == s[j + 1..j + 1 + |search|];
          assert OccursAt(s, search, j + 1);
        }
      }
      StrReplaceWithoutOccurrence(s[1..], search, replace);
    }
  }

  /** The characters PHP's `trim()` strips by default: space, tab, newline, carriage return,
      NUL and vertical tab. */
  predicate IsTrimChar(c: char) {
    c == ' ' || c == '\t' || c == '\n' || c == '\r' || c as int == 0 || c as int == 11
  }

  function TrimStart(s: string): (r: string)
    ensures |r| <= |s| && r == s[|s| - |r|..]
    ensures r == [] || !IsTrimChar(r[0])
    ensures forall j :: 0 <= j < |s| - |r| ==> IsTrimChar(s[j])
  {
    if s != [] && IsTrimChar(s[0]) then TrimStart(s[1..]) else s
  }

  function TrimEnd(s: string): (r: string)
    ensures |r| <= |s| && r == s[..|r|]
    ensures r == [] || !IsTrimChar(r[|r| - 1])
    ensures forall j :: |r| <= j < |s| ==> IsTrimChar(s[j])
  {
    if s != [] && IsTrimChar(s[|s| - 1]) then TrimEnd(s[..|s| - 1]) else s
  }

  /** `trim($s)`: the middle of `s` once trim characters are stripped from both ends. */
  function Trim(s: string): (r: string)
    ensures |r| <= |s|
    ensures r == [] || (!IsTrimChar(r[0]) && !IsTrimChar(r[|r| - 1]))
    ensures (s == [] || (!IsTrimChar(s[0]) && !IsTrimChar(s[|s| - 1]))) ==> r == s
    ensures exists a :: StrippedAt(s, r, a)
  {
    TrimBothEnds(s);
    TrimEnd(TrimStart(s))
  }

  lemma {:induction false} TrimBothEnds(s: string)
    ensures StrippedAt(s, TrimEnd(TrimStart(s)), |s| - |TrimStart(s)|)
  {
    var t := TrimStart(s);
    StripBothEnds(s, t, TrimEnd(t), |s| - |t|);
  }

  /** Stripping a prefix `s[..a]` and then a suffix of the rest strips both ends of `s`. */
  lemma {:induction false} StripBothEnds(s: string, t: string, r: string, a: int)
    requires 0 <= a <= |s| && t == s[a..] && |r| <= |t| && r == t[..|r|]
    requires forall j :: 0 <= j < a ==> IsTrimChar(s[j])
    requires forall j :: |r| <= j < |t| ==> IsTrimChar(t[j])
    ensures StrippedAt(s, r, a)
  {
    assert r == s[a..a + |r|];
    forall j | a + |r| <= j < |s| ensures IsTrimChar(s[j]) {
      assert s[j] == t[j - a];
    }
  }

  /** `r` is the part of `s` starting at `a`, and every character of `s` outside it is a trim
      character. */
  ghost predicate StrippedAt(s: string, r: string, a: int) {
    && 0 <= a && a + |r| <= |s| && r == s[a..a + |r|]
    && (forall j :: 0 <= j < a ==> IsTrimChar(s[j]))
    && (forall j :: a + |r| <= j < |s| ==> IsTrimChar(s[j]))
  }

  /** `rtrim($s, $c)` for a single character. */
  function TrimEndChar(s: string, c: char): (r: string)
    ensures |r| <= |s| && r == s[..|r|]
    ensures r == [] || r[|r| - 1] != c
    ensures forall j :: |r| <= j < |s| ==> s[j] == c
  {
    if s != [] && s[|s| - 1] == c then TrimEndChar(s[..|s| - 1], c) else s
  }

  /** `strtolower` in the C locale: only ASCII capitals change. */
  function ToLower(s: string): (r: string)
    ensures |r| == |s|
    ensures forall j :: 0 <= j < |s| ==> r[j] == LowerChar(s[j])
  {
    seq(|s|, j requires 0 <= j < |s| => LowerChar(s[j]))
  }

  function LowerChar(c: char): char {
    if 'A' <= c <= 'Z' then (c as int + 32) as char else c
  }

  /** The characters PCRE's `\s` matches: space, tab, newline, vertical tab, form feed and
      carriage return. */
  predicate IsSpace(c: char) {
    c == ' ' || c == '\t' || c == '\n' || c as int == 11 || c as int == 12 || c == '\r'
  }

  function IndexOfSpace(s: string, i: nat): (r: nat)
    requires i <= |s|
    ensures i <= r <= |s|
    ensures forall j :: i <= j < r ==> !IsSpace(s[j])
    ensures r < |s| ==> IsSpace(s[r])
    decreases |s| - i
  {
    if i == |s| || IsSpace(s[i]) then i else IndexOfSpace(s, i + 1)
  }

  function SkipSpaces(s: string, i: nat): (r: nat)
    requires i <= |s|
    ensures i <= r <= |s|
    ensures forall j :: i <= j < r ==> IsSpace(s[j])
    ensures r < |s| ==> !IsSpace(s[r])
    decreases |s| - i
  {
    if i == |s| || !IsSpace(s[i]) then i else SkipSpaces(s, i + 1)
  }

  /** `preg_split('/\s+/', $s)`: the pieces between maximal runs of white space, keeping the
      empty leading or trailing piece a run at either end produces. */
  function SplitWhitespace(s: string): (parts: seq<string>)
    ensures |parts| >= 1
    ensures forall p, j :: p in parts && 0 <= j < |p| ==> !IsSpace(p[j])
    ensures (forall j :: 0 <= j < |s| ==> !IsSpace(s[j])) ==> parts == [s]
    ensures parts[0] == s[..IndexOfSpace(s, 0)]
    decreases |s|
  {
    var i := IndexOfSpace(s, 0);
    if i == |s| then [s]
    else
      var rest := SplitWhitespace(s[SkipSpaces(s, i)..]);
      [s[..i]] + rest
  }

  /** `explode($d, $s)` for a non-empty delimiter: the pieces between successive leftmost
      occurrences of `d`. */
  function Explode(s: string, d: string): (parts: seq<string>)
    requires d != []
    ensures |parts| >= 1
    decreases |s|
  {
    match Strpos(s, d, 0)
    case None => [s]
    case Some(i) => [s[..i]] + Explode(s[i + |d|..], d)
  }

  /** `implode($d, $parts)`. */
  function Implode(d: string, parts: seq<string>): string
    decreases |parts|
  {
    if parts == [] then ""
    else if |parts| == 1 then parts[0]
    else parts[0] + d + Implode(d, parts[1..])
  }

  /** Joining the pieces of `explode` with its delimiter gives back the original string. */
  lemma {:induction false} ImplodeExplode(s: string, d: string)
    requires d != []
    ensures Implode(d, Explode(s, d)) == s
    decreases |s|
  {
    match Strpos(s, d, 0)
    case None =>
    case Some(i) =>
      var head, rest := s[..i], s[i + |d|..];
      assert s[i..i + |d|] == d;
      assert s == head + d + rest;
      var tail := Explode(rest, d);
      assert Explode(s, d) == [head] + tail;
      ImplodeExplode(rest, d);
      ImplodeCons(d, head, tail);
  }

  lemma {:induction false} ImplodeCons(d: string, head: string, tail: seq<string>)
    requires tail != []
    ensures Implode(d, [head] + tail) == head + d + Implode(d, tail)
  {
    assert ([head] + tail)[1..] == tail;
  }

  /** No piece of `explode` contains the delimiter. */
  lemma {:induction false} ExplodePiecesLackDelimiter(s: string, d: string)
    requires d != []
    ensures forall p, j :: p in Explode(s, d) ==> !OccursAt(p, d, j)
    decreases |s|
  {
    match Strpos(s, d, 0)
    case None =>
    case Some(i) =>
      var head := s[..i];
      forall j ensures !OccursAt(head, d, j) {
        if 0 <= j && j + |d| <= |head| {
          assert j < i;
          assert !OccursAt(s, d, j);
          assert head[j..j + |d|] == s[j..j + |d|];
        }
      }
      ExplodePiecesLackDelimiter(s[i + |d|..], d);
      assert Explode(s, d) == [head] + Explode(s[i + |d|..], d);
  }

  /** `substr($s, $start)` for a non-negative start: PHP 7 gives false past the end. */
  function Substr(s: string, start: nat): (r: Option<string>)
    ensures r.Some? <==> start <= |s|
    ensures r.Some? ==> s == s[..start] + r.value
  {
    if start > |s| then None else Some(s[start..])
  }

  predicate IsLowerHexDigit(c: char) {
    '0' <= c <= '9' || 'a' <= c <= 'f'
  }

  /** The lowercase hexadecimal digit of a nibble. */
  function HexDigit(k: nat): (c: char)
    requires k < 16
    ensures IsLowerHexDigit(c)
  {
    if k < 10 then ('0' as int + k) as char else ('a' as int + k - 10) as char
  }

  /** `bin2hex`: two lowercase hexadecimal digits per byte, high nibble first. */
  function Bin2Hex(bytes: seq<byte>): (r: string)
    ensures |r| == 2 * |bytes|
    ensures forall j :: 0 <= j < |r| ==> IsLowerHexDigit(r[j])
  {
    if bytes == [] then ""
    else [HexDigit(bytes[0] / 16), HexDigit(bytes[0] % 16)] + Bin2Hex(bytes[1..])
  }

  function HexDigitValue(c: char): nat {
    if '0' <= c <= '9' then c as int - '0' as int
    else if 'a' <= c <= 'f' then c as int - 'a' as int + 10
    else 0
  }

  /** `hex2bin` on lowercase input of even length. */
  function Hex2Bin(s: string): seq<byte>
    requires |s| % 2 == 0
    decreases |s|
  {
    if s == [] then []
    else [(HexDigitValue(s[0]) * 16 + HexDigitValue(s[1])) % 256] + Hex2Bin(s[2..])
  }

  /** `bin2hex` loses nothing: `hex2bin` recovers the bytes. */
  lemma {:induction false} Hex2BinBin2Hex(bytes: seq<byte>)
    ensures Hex2Bin(Bin2Hex(bytes)) == bytes
  {
    if bytes != [] {
      var h := Bin2Hex(bytes);
      ByteRoundTrip(bytes[0]);
      assert h[2..] == Bin2Hex(bytes[1..]);
      Hex2BinBin2Hex(bytes[1..]);
    }
  }

  /** The two digits of a byte read back as that byte. */
  lemma {:induction false} ByteRoundTrip(b: byte)
    ensures (HexDigitValue(HexDigit(b / 16)) * 16 + HexDigitValue(HexDigit(b % 16))) % 256 == b
  {
    NibbleRoundTrip(b / 16);
    NibbleRoundTrip(b % 16);
  }

  lemma {:induction false} NibbleRoundTrip(k: nat)
    requires k < 16
    ensures HexDigitValue(HexDigit(k)) == k
  {
  }
}
