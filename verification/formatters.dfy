/** `truncateString` of `src/utils/formatters.ts`: a string longer than the limit
    is cut with `slice(0, maxLength)` and given an ellipsis. The limit is an
    integer; `slice` counts a negative end from the back of the string. */
module Formatters {

  const Ellipsis := "..."

  /** Where `str.slice(0, end)` stops for a string of length `len`. */
  function SliceEnd(len: nat, end: int): (k: nat)
    ensures k <= len
    ensures 0 <= end ==> k == if end < len then end else len
    ensures end < 0 ==> k == if len + end > 0 then len + end else 0
  {
    if end < 0 then (if len + end > 0 then len + end else 0)
    else if end < len then end
    else len
  }

  /** `truncateString(str, maxLength)`. */
  function Truncate(str: string, maxLength: int): (r: string)
    ensures |str| <= maxLength ==> r == str
    ensures |str| > maxLength ==> |r| == SliceEnd(|str|, maxLength) + 3
    ensures |str| > maxLength ==> r == str[..SliceEnd(|str|, maxLength)] + Ellipsis
    ensures maxLength >= 0 && |str| > maxLength ==> |r| == maxLength + 3 && EndsWithEllipsis(r)
    ensures maxLength >= 0 ==>
      var k := if |str| < maxLength then |str| else maxLength;
      |r| >= k && r[..k] == str[..k]
  {
    if |str| <= maxLength then str
    else str[..SliceEnd(|str|, maxLength)] + Ellipsis
  }

  /** `s` ends with the three dots. */
  predicate EndsWithEllipsis(s: string) {
    |s| >= 3 && s[|s| - 3..] == Ellipsis
  }

  /** For a non-negative limit a cut string is exactly `maxLength` characters of
      the original plus the ellipsis, and the result always starts with the
      first `min(|str|, maxLength)` characters of `str`. */
  lemma TruncateShape(str: string, maxLength: int)
    requires maxLength >= 0
    ensures |str| > maxLength ==> |Truncate(str, maxLength)| == maxLength + 3
    ensures var k := if |str| < maxLength then |str| else maxLength;
      |Truncate(str, maxLength)| >= k && Truncate(str, maxLength)[..k] == str[..k]
  {
  }

  /** For a non-negative limit truncating twice is truncating once. */
  lemma TruncateIdempotent(str: string, maxLength: int)
    requires maxLength >= 0
    ensures Truncate(Truncate(str, maxLength), maxLength) == Truncate(str, maxLength)
  {
    if |str| > maxLength {
      var r := Truncate(str, maxLength);
      assert r[..maxLength] == str[..maxLength];
    }
  }

  /** With a negative limit the function is not idempotent: the second call
      cuts into the first ellipsis and adds another. */
  lemma NegativeLimitNotIdempotent()
    ensures Truncate("abcd", -1) == "abc..."
    ensures Truncate(Truncate("abcd", -1), -1) == "abc....."
  {
    assert Truncate("abcd", -1) == "abc" + Ellipsis;
    assert "abc..."[..5] == "abc..";
    assert Truncate("abc...", -1) == "abc.." + Ellipsis;
  }
}
