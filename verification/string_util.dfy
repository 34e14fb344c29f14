/** `LearnosityQti\Utils\StringUtil`: substring tests built on `strpos`/`strrpos`, and the random
    hexadecimal identifiers used for generated QTI identifiers. */
module StringUtil {
  import opened Wrappers
  import opened PhpStrings

  /** `contains`: `strpos($haystack, $needle) !== false`. Under PHP 7 an empty needle makes
      `strpos` return false, so nothing contains the empty string. */
  function Contains(haystack: string, needle: string): (b: bool)
    ensures b ==> needle != []
  {
    Strpos(haystack, needle, 0).Some?
  }

  /** `startsWith`: the empty needle, or a backwards search anchored at the start. */
  function StartsWith(haystack: string, needle: string): bool {
    needle == "" || Strrpos(haystack, needle, -|haystack|).Some?
  }

  /** `endsWith`: the empty needle, or a forward search from the last place the needle fits. */
  function EndsWith(haystack: string, needle: string): bool {
    needle == "" || (|haystack| - |needle| >= 0 && Strpos(haystack, needle, |haystack| - |needle|).Some?)
  }

  /** `contains` holds exactly when the needle is non-empty and occurs somewhere. */
  lemma {:induction false} ContainsIffOccurs(haystack: string, needle: string)
    ensures Contains(haystack, needle) <==> needle != [] && exists j :: OccursAt(haystack, needle, j)
  {
    if needle != [] && exists j :: OccursAt(haystack, needle, j) {
      var j :| OccursAt(haystack, needle, j);
      assert 0 <= j;
    }
  }

  /** `startsWith` is the prefix test. */
  lemma {:induction false} StartsWithIsPrefix(haystack: string, needle: string)
    ensures StartsWith(haystack, needle) <==> needle <= haystack
  {
    if needle != "" && |haystack| > 0 {
      var r := Strrpos(haystack, needle, -|haystack|);
      if |haystack| < |needle| {
        assert r == LastOccurrence(haystack, needle, 0, |haystack|);
      } else {
        assert r == LastOccurrence(haystack, needle, 0, |needle|);
        if needle <= haystack {
          assert haystack[..|needle|] == needle;
          assert OccursAt(haystack, needle, 0);
        }
        if r.Some? {
          assert r.value == 0;
          assert haystack[..|needle|] == needle;
        }
      }
    }
  }

  /** `endsWith` is the suffix test. */
  lemma {:induction false} EndsWithIsSuffix(haystack: string, needle: string)
    ensures EndsWith(haystack, needle)
        <==> |needle| <= |haystack| && haystack[|haystack| - |needle|..] == needle
  {
    if needle != "" && |haystack| >= |needle| {
      var t := |haystack| - |needle|;
      var r := Strpos(haystack, needle, t);
      if haystack[t..] == needle {
        assert haystack[t..t + |needle|] == needle;
        assert OccursAt(haystack, needle, t);
      }
      if r.Some? {
        assert r.value == t;
        assert haystack[t..] == haystack[t..t + |needle|];
      }
    }
  }

  /** Every string starts and ends with itself. */
  lemma {:induction false} StartsAndEndsWithItself(s: string)
    ensures StartsWith(s, s) && EndsWith(s, s)
  {
    StartsWithIsPrefix(s, s);
    EndsWithIsSuffix(s, s);
  }

  /** A non-empty prefix or suffix is contained in the string. */
  lemma {:induction false} AffixIsContained(haystack: string, needle: string)
    requires needle != []
    requires StartsWith(haystack, needle) || EndsWith(haystack, needle)
    ensures Contains(haystack, needle)
  {
    StartsWithIsPrefix(haystack, needle);
    EndsWithIsSuffix(haystack, needle);
    ContainsIffOccurs(haystack, needle);
    if needle <= haystack {
      assert haystack[0..|needle|] == needle;
      assert OccursAt(haystack, needle, 0);
    } else {
      var t := |haystack| - |needle|;
      assert haystack[t..t + |needle|] == haystack[t..];
      assert OccursAt(haystack, needle, t);
    }
  }

  const EVEN_LENGTH_MESSAGE: string := "Length must be even number"

  /** `generateRandomString($length)`. `draw(n)` stands for `openssl_random_pseudo_bytes(n)` on a
      positive count. A zero or odd length (of either sign) throws; a negative even length asks
      OpenSSL for a negative count, which PHP 7 answers with false, hex-encoded as "". */
  function GenerateRandomString(length: int, draw: nat -> seq<byte>): (r: Result<string, string>)
    ensures r.Failure? <==> length == 0 || length % 2 != 0
    ensures r.Failure? ==> r.error == EVEN_LENGTH_MESSAGE
    ensures r.Success? && length < 0 ==> r.value == ""
    ensures r.Success? && length > 0 ==> |r.value| == 2 * |draw(length / 2)|
    ensures r.Success? ==> forall j :: 0 <= j < |r.value| ==> IsLowerHexDigit(r.value[j])
  {
    if length == 0 || length % 2 != 0 then Failure(EVEN_LENGTH_MESSAGE)
    else if length < 0 then Success(Bin2Hex([]))
    else Success(Bin2Hex(draw(length / 2)))
  }

  /** With an honest generator the identifier has the requested length and decodes back to the
      drawn bytes. */
  lemma {:induction false} RandomStringCarriesDrawnBytes(length: int, draw: nat -> seq<byte>)
    requires length > 0 && length % 2 == 0
    requires |draw(length / 2)| == length / 2
    ensures GenerateRandomString(length, draw).Success?
    ensures |GenerateRandomString(length, draw).value| == length
    ensures Hex2Bin(GenerateRandomString(length, draw).value) == draw(length / 2)
  {
    Hex2BinBin2Hex(draw(length / 2));
  }
}
