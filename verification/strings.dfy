/** The JavaScript string built-ins the storefront relies on, over `seq<char>`:
    `trim`, `trimStart`, `toLowerCase` / `toUpperCase` (ASCII letters only),
    `includes`, `split` on one character, `Number.prototype.toString` for
    non-negative integers and the global `parseInt`. */
module Strings {
  import opened Wrappers

  /** The characters `trim` removes: ECMAScript WhiteSpace and LineTerminator. */
  predicate IsSpace(c: char) {
    || c == '\t' || c == '\n' || c == '\U{000B}' || c == '\U{000C}' || c == '\r' || c == ' '
    || c == '\U{00A0}' || c == '\U{1680}' || ('\U{2000}' <= c <= '\U{200A}')
    || c == '\U{2028}' || c == '\U{2029}' || c == '\U{202F}' || c == '\U{205F}'
    || c == '\U{3000}' || c == '\U{FEFF}'
  }

  /** Every character of `s` from index `lo` up to (not including) `hi` is a space. */
  ghost predicate SpacesIn(s: string, lo: int, hi: int) {
    0 <= lo <= hi <= |s| && forall k :: lo <= k < hi ==> IsSpace(s[k])
  }

  /** `r` occurs in `s` at offset `i` with nothing but spaces before and after it. */
  ghost predicate Padded(s: string, r: string, i: int) {
    0 <= i <= |s| - |r| && s[i..i + |r|] == r && SpacesIn(s, 0, i) && SpacesIn(s, i + |r|, |s|)
  }

  /** A string with no removable space at either end. */
  predicate IsTrimmed(s: string) {
    s == [] || (!IsSpace(s[0]) && !IsSpace(s[|s| - 1]))
  }

  /** `String.prototype.trimStart`: drops the leading spaces and nothing else. */
  function TrimStart(s: string): (r: string)
    ensures |r| <= |s| && r == s[|s| - |r|..]
    ensures SpacesIn(s, 0, |s| - |r|)
    ensures r == [] || !IsSpace(r[0])
    decreases |s|
  {
    if |s| > 0 && IsSpace(s[0]) then
      var r := TrimStart(s[1..]);
      assert forall k :: 1 <= k < |s| - |r| ==> s[k] == s[1..][k - 1];
      r
    else s
  }

  /** `String.prototype.trimEnd`: drops the trailing spaces and nothing else. */
  function TrimEnd(s: string): (r: string)
    ensures |r| <= |s| && r == s[..|r|]
    ensures SpacesIn(s, |r|, |s|)
    ensures r == [] || !IsSpace(r[|r| - 1])
    decreases |s|
  {
    if |s| > 0 && IsSpace(s[|s| - 1]) then
      var r := TrimEnd(s[..|s| - 1]);
      assert forall k :: |r| <= k < |s| - 1 ==> s[k] == s[..|s| - 1][k];
      r
    else s
  }

  /** `String.prototype.trim`: the result sits inside `s` with only spaces around it. */
  function Trim(s: string): (r: string)
    ensures IsTrimmed(r) && |r| <= |s|
  {
    TrimEnd(TrimStart(s))
  }

  /** What `trim` returns is `s` with only spaces cut from either end. */
  lemma TrimPadded(s: string)
    ensures exists i :: Padded(s, Trim(s), i)
  {
    var t := TrimStart(s);
    Framed(s, t, TrimEnd(t));
    assert Padded(s, Trim(s), |s| - |t|);
  }

  /** Spaces cut from the front of `s` (leaving `t`) and then from the back of `t`
      (leaving `r`) frame `r` inside `s`. */
  lemma Framed(s: string, t: string, r: string)
    requires |t| <= |s| && t == s[|s| - |t|..] && SpacesIn(s, 0, |s| - |t|)
    requires t == [] || !IsSpace(t[0])
    requires |r| <= |t| && r == t[..|r|] && SpacesIn(t, |r|, |t|)
    requires r == [] || !IsSpace(r[|r| - 1])
    ensures IsTrimmed(r) && Padded(s, r, |s| - |t|)
  {
    var i := |s| - |t|;
    if r != [] {
      assert r[0] == t[0];
    }
    assert s[i..i + |r|] == r;
    assert forall k :: i + |r| <= k < |s| ==> s[k] == t[k - i];
  }

  /** Trimming a string that is already trimmed changes nothing. */
  lemma TrimTrimmed(s: string)
    requires IsTrimmed(s)
    ensures Trim(s) == s
  {
  }

  /** `trim` is idempotent. */
  lemma TrimIdempotent(s: string)
    ensures Trim(Trim(s)) == Trim(s)
  {
    TrimTrimmed(Trim(s));
  }

  predicate IsUpperAscii(c: char) {
    'A' <= c <= 'Z'
  }

  predicate IsLowerAscii(c: char) {
    'a' <= c <= 'z'
  }

  /** No small ASCII letter in `s`. */
  predicate NoLowerAscii(s: string) {
    forall k :: 0 <= k < |s| ==> !IsLowerAscii(s[k])
  }

  function LowerChar(c: char): char {
    if IsUpperAscii(c) then (c as int + 32) as char else c
  }

  function UpperChar(c: char): char {
    if IsLowerAscii(c) then (c as int - 32) as char else c
  }

  /** `toLowerCase` restricted to ASCII: every capital becomes its small letter, the rest is kept. */
  function ToLower(s: string): (r: string)
    ensures |r| == |s|
    ensures forall i :: 0 <= i < |r| ==> !IsUpperAscii(r[i])
    ensures forall i :: 0 <= i < |s| && !IsUpperAscii(s[i]) ==> r[i] == s[i]
    ensures forall i :: 0 <= i < |s| && IsUpperAscii(s[i]) ==> r[i] as int == s[i] as int + 32
  {
    seq(|s|, i requires 0 <= i < |s| => LowerChar(s[i]))
  }

  /** `toUpperCase` restricted to ASCII: every small letter becomes its capital, the rest is kept. */
  function ToUpper(s: string): (r: string)
    ensures |r| == |s|
    ensures forall i :: 0 <= i < |r| ==> !IsLowerAscii(r[i])
    ensures forall i :: 0 <= i < |s| && !IsLowerAscii(s[i]) ==> r[i] == s[i]
    ensures forall i :: 0 <= i < |s| && IsLowerAscii(s[i]) ==> r[i] as int == s[i] as int - 32
  {
    seq(|s|, i requires 0 <= i < |s| => UpperChar(s[i]))
  }

  /** Upper-casing a string with no small ASCII letter changes nothing. */
  lemma UpperOfNoLower(s: string)
    requires NoLowerAscii(s)
    ensures ToUpper(s) == s
  {
    assert forall i :: 0 <= i < |s| ==> ToUpper(s)[i] == s[i];
  }

  /** The `s.trim().toLowerCase()` normal form used for e-mail addresses. */
  function TrimLower(s: string): (r: string)
    ensures IsTrimmed(r)
    ensures forall i :: 0 <= i < |r| ==> !IsUpperAscii(r[i])
  {
    var t := Trim(s);
    LowerKeepsTrimmed(t);
    ToLower(t)
  }

  /** Case mapping never turns a space into a non-space or back, so a trimmed
      string stays trimmed. */
  lemma LowerKeepsTrimmed(s: string)
    requires IsTrimmed(s)
    ensures IsTrimmed(ToLower(s))
  {
    if s != [] {
      assert IsSpace(LowerChar(s[0])) <==> IsSpace(s[0]);
      assert IsSpace(LowerChar(s[|s| - 1])) <==> IsSpace(s[|s| - 1]);
    }
  }

  /** The same for upper-casing. */
  lemma UpperKeepsTrimmed(s: string)
    requires IsTrimmed(s)
    ensures IsTrimmed(ToUpper(s))
  {
    if s != [] {
      assert IsSpace(UpperChar(s[0])) <==> IsSpace(s[0]);
      assert IsSpace(UpperChar(s[|s| - 1])) <==> IsSpace(s[|s| - 1]);
    }
  }

  /** The normal form is a fixed point: normalising twice is normalising once. */
  lemma TrimLowerIdempotent(s: string)
    ensures TrimLower(TrimLower(s)) == TrimLower(s)
  {
    var r := TrimLower(s);
    TrimTrimmed(r);
    assert ToLower(r) == r;
  }

  predicate Occurs(s: string, sub: string, i: int) {
    0 <= i && i + |sub| <= |s| && s[i..i + |sub|] == sub
  }

  lemma OccursShift(s: string, sub: string)
    requires |s| > 0
    ensures forall i :: Occurs(s[1..], sub, i) ==> Occurs(s, sub, i + 1)
    ensures forall i :: 0 < i && Occurs(s, sub, i) ==> Occurs(s[1..], sub, i - 1)
  {
    forall i | Occurs(s[1..], sub, i)
      ensures Occurs(s, sub, i + 1)
    {
      assert s[1..][i..i + |sub|] == s[i + 1..i + 1 + |sub|];
    }
    forall i | 0 < i && Occurs(s, sub, i)
      ensures Occurs(s[1..], sub, i - 1)
    {
      assert s[1..][i - 1..i - 1 + |sub|] == s[i..i + |sub|];
    }
  }

  /** An occurrence that starts with a non-space survives dropping leading spaces. */
  lemma OccursAfterSpaces(s: string, sub: string, i: int, t: string)
    requires Occurs(s, sub, i) && |sub| > 0 && !IsSpace(sub[0])
    requires |t| <= |s| && t == s[|s| - |t|..] && SpacesIn(s, 0, |s| - |t|)
    ensures Occurs(t, sub, i - (|s| - |t|))
  {
    assert s[i] == sub[0];
    var d := |s| - |t|;
    assert t[i - d..i - d + |sub|] == s[i..i + |sub|];
  }

  /** An occurrence that ends with a non-space survives dropping trailing spaces. */
  lemma OccursBeforeSpaces(s: string, sub: string, i: int, t: string)
    requires Occurs(s, sub, i) && |sub| > 0 && !IsSpace(sub[|sub| - 1])
    requires |t| <= |s| && t == s[..|t|] && SpacesIn(s, |t|, |s|)
    ensures Occurs(t, sub, i)
  {
    assert s[i + |sub| - 1] == sub[|sub| - 1];
    assert t[i..i + |sub|] == s[i..i + |sub|];
  }

  /** `trim` keeps every occurrence of a text with no space at either end. */
  lemma ContainsTrim(s: string, sub: string)
    requires Contains(s, sub) && |sub| > 0 && IsTrimmed(sub)
    ensures Contains(Trim(s), sub)
  {
    var i :| Occurs(s, sub, i);
    var t := TrimStart(s);
    OccursAfterSpaces(s, sub, i, t);
    OccursBeforeSpaces(t, sub, i - (|s| - |t|), TrimEnd(t));
  }

  /** `String.prototype.includes`: `sub` occurs somewhere in `s`. */
  function Contains(s: string, sub: string): (b: bool)
    ensures b <==> exists i :: Occurs(s, sub, i)
    decreases |s|
  {
    if |s| < |sub| then false
    else if s[..|sub|] == sub then assert Occurs(s, sub, 0); true
    else OccursShift(s, sub); Contains(s[1..], sub)
  }

  /** `String.prototype.endsWith`. */
  predicate EndsWith(s: string, suffix: string) {
    |suffix| <= |s| && s[|s| - |suffix|..] == suffix
  }

  /** Index of the first occurrence of `c` in `s`. */
  function IndexOf(s: string, c: char): (k: nat)
    requires c in s
    ensures k < |s| && s[k] == c && c !in s[..k]
  {
    if s[0] == c then 0
    else
      assert c in s[1..];
      var k := IndexOf(s[1..], c);
      assert s[..k + 1] == [s[0]] + s[1..][..k];
      1 + k
  }

  /** The pieces joined back with the separator: the inverse of `Split`. */
  function Join(parts: seq<string>, sep: char): string
    requires |parts| >= 1
  {
    if |parts| == 1 then parts[0] else parts[0] + [sep] + Join(parts[1..], sep)
  }

  /** `s.split(sep)` for a one-character separator: the pieces between separators,
      none of which holds a separator, and which join back to `s`. */
  function Split(s: string, sep: char): (parts: seq<string>)
    ensures |parts| >= 1
    ensures forall i :: 0 <= i < |parts| ==> sep !in parts[i]
    decreases |s|
  {
    if sep !in s then [s]
    else
      var k := IndexOf(s, sep);
      var rest := Split(s[k + 1..], sep);
      [s[..k]] + rest
  }

  /** Joining the pieces of a split with the same separator gives the string back. */
  lemma {:induction false} JoinSplit(s: string, sep: char)
    ensures Join(Split(s, sep), sep) == s
    decreases |s|
  {
    if sep in s {
      var k := IndexOf(s, sep);
      var rest := Split(s[k + 1..], sep);
      assert Split(s, sep) == [s[..k]] + rest;
      assert Join(Split(s, sep), sep) == s[..k] + [sep] + Join(rest, sep) by {
        assert ([s[..k]] + rest)[1..] == rest;
      }
      JoinSplit(s[k + 1..], sep);
      assert s == s[..k] + [sep] + s[k + 1..];
    }
  }

  /** Splitting what `Join` built, from pieces free of the separator, gives the
      pieces back. */
  lemma {:induction false} SplitJoin(parts: seq<string>, sep: char)
    requires |parts| >= 1
    requires forall i :: 0 <= i < |parts| ==> sep !in parts[i]
    ensures Split(Join(parts, sep), sep) == parts
    decreases |parts|
  {
    if |parts| > 1 {
      var s := Join(parts, sep);
      var p := parts[0];
      var rest := Join(parts[1..], sep);
      assert s == p + [sep] + rest;
      assert IndexOf(s, sep) == |p| by {
        assert s[..|p|] == p;
        IndexOfAt(s, sep, |p|);
      }
      assert s[|p| + 1..] == rest;
      SplitJoin(parts[1..], sep);
      assert [p] + parts[1..] == parts;
    }
  }

  /** The first occurrence is the position of `c` with no `c` before it. */
  lemma IndexOfAt(s: string, c: char, k: nat)
    requires k < |s| && s[k] == c && c !in s[..k]
    ensures IndexOf(s, c) == k
  {
  }

  /** The value of `c` as a digit of base `radix` (16, or else 10), if it is one. */
  function DigitOf(c: char, radix: nat): (d: Option<nat>)
    ensures d.Some? ==> d.value < 16
    ensures radix == 10 && d.Some? ==> d.value < 10
  {
    if '0' <= c <= '9' then Some(c as int - '0' as int)
    else if radix == 16 && 'a' <= c <= 'f' then Some(c as int - 'a' as int + 10)
    else if radix == 16 && 'A' <= c <= 'F' then Some(c as int - 'A' as int + 10)
    else None
  }

  predicate AllDigits(s: string, radix: nat) {
    forall i :: 0 <= i < |s| ==> DigitOf(s[i], radix).Some?
  }

  /** The number a string of digits denotes in base `radix` (16, or else 10), most
      significant digit first. */
  function Value(s: string, radix: nat): nat
    requires AllDigits(s, radix)
  {
    if s == [] then 0
    else
      var high := Value(s[..|s| - 1], radix);
      (if radix == 16 then 16 * high else 10 * high) + DigitOf(s[|s| - 1], radix).value
  }

  /** The length of the longest prefix of `s` made of base-`radix` digits. */
  function DigitRun(s: string, radix: nat): (k: nat)
    ensures k <= |s| && AllDigits(s[..k], radix)
    ensures k < |s| ==> DigitOf(s[k], radix).None?
    decreases |s|
  {
    if s == [] || DigitOf(s[0], radix).None? then 0
    else
      var k := DigitRun(s[1..], radix);
      assert s[..k + 1] == [s[0]] + s[1..][..k];
      k + 1
  }

  lemma {:induction false} DigitRunAll(s: string, radix: nat)
    requires AllDigits(s, radix)
    ensures DigitRun(s, radix) == |s|
    decreases |s|
  {
    if s != [] {
      DigitRunAll(s[1..], radix);
    }
  }

  function DigitChar(d: nat): (c: char)
    requires d < 10
    ensures DigitOf(c, 10) == Some(d) && '0' <= c <= '9'
  {
    ('0' as int + d) as char
  }

  /** `String(n)` for a non-negative integer: decimal digits without a leading zero,
      reading back as `n`. */
  function NatToString(n: nat): (r: string)
    ensures |r| >= 1 && AllDigits(r, 10)
    ensures forall i :: 0 <= i < |r| ==> '0' <= r[i] <= '9'
    ensures |r| > 1 ==> r[0] != '0'
    ensures Value(r, 10) == n
    decreases n
  {
    if n < 10 then [DigitChar(n)]
    else
      var p := NatToString(n / 10);
      var r := p + [DigitChar(n % 10)];
      assert r[..|r| - 1] == p;
      r
  }

  function Pow10(k: nat): nat {
    if k == 0 then 1 else 10 * Pow10(k - 1)
  }

  /** A number with `k` decimal digits is written with exactly `k` characters. */
  lemma {:induction false} NatToStringLength(n: nat, k: nat)
    requires k >= 1 && n < Pow10(k)
    requires k == 1 || Pow10(k - 1) <= n
    ensures |NatToString(n)| == k
  {
    if n >= 10 {
      assert k >= 2;
      NatToStringLength(n / 10, k - 1);
    }
  }

  /** The global `parseInt` with no radix argument: leading spaces are skipped, an
      optional sign is read, a `0x` / `0X` prefix switches to base 16, and the longest
      run of digits is read; no digit at all gives `NaN` (here `None`). */
  function ParseInt(s: string): (r: Option<int>)
    ensures r.None? <==> DigitRun(ParseBody(s), ParseRadix(s)) == 0
  {
    ReadDigits(ParseBody(s), ParseRadix(s), Negative(s))
  }

  /** The number spelled by the longest run of digits at the front of `body`. */
  function ReadDigits(body: string, radix: nat, negative: bool): (r: Option<int>)
    ensures r.None? <==> DigitRun(body, radix) == 0
  {
    var k := DigitRun(body, radix);
    if k == 0 then None
    else if negative then Some(-(Value(body[..k], radix) as int))
    else Some(Value(body[..k], radix))
  }

  /** The text after the leading spaces and the sign. */
  function Unsigned(s: string): string {
    var t := TrimStart(s);
    if |t| > 0 && (t[0] == '-' || t[0] == '+') then t[1..] else t
  }

  /** Whether a minus sign follows the leading spaces. */
  predicate Negative(s: string) {
    var t := TrimStart(s);
    |t| > 0 && t[0] == '-'
  }

  predicate HexPrefix(u: string) {
    |u| >= 2 && u[0] == '0' && (u[1] == 'x' || u[1] == 'X')
  }

  function ParseRadix(s: string): nat {
    if HexPrefix(Unsigned(s)) then 16 else 10
  }

  function ParseBody(s: string): string {
    var u := Unsigned(s);
    if HexPrefix(u) then u[2..] else u
  }

  /** `parseInt` reads back what `String` writes for a non-negative integer. */
  lemma ParseIntOfNatToString(n: nat)
    ensures ParseInt(NatToString(n)) == Some(n)
  {
    var r := NatToString(n);
    ParseIntOfDigits(r, "", Value(r, 10));
    assert "" + r == r;
  }

  /** Plain decimal digits with no superfluous leading zero, as `String` writes them. */
  predicate IsDecimal(r: string) {
    |r| >= 1 && (forall i :: 0 <= i < |r| ==> '0' <= r[i] <= '9') && (|r| > 1 ==> r[0] != '0')
  }

  /** The sign and the digits `parseInt` sees in an optional minus sign followed by decimal digits. */
  lemma SignedDigits(r: string, sign: string)
    requires IsDecimal(r)
    requires sign == "" || sign == "-"
    ensures ParseBody(sign + r) == r && ParseRadix(sign + r) == 10
    ensures Negative(sign + r) <==> sign == "-"
  {
    var s := sign + r;
    assert s[0] == '-' || '0' <= s[0] <= '9';
    assert TrimStart(s) == s;
    if sign == "" {
      assert s == r;
    } else {
      assert s[1..] == r;
    }
    assert Unsigned(s) == r;
    assert !HexPrefix(r);
  }

  /** Reading an optional minus sign followed by plain decimal digits worth `v`. */
  lemma ParseIntOfDigits(r: string, sign: string, v: nat)
    requires IsDecimal(r) && AllDigits(r, 10) && Value(r, 10) == v
    requires sign == "" || sign == "-"
    ensures ParseInt(sign + r) == Some(if sign == "" then v else -(v as int))
  {
    SignedDigits(r, sign);
    ReadAllDigits(r, v, sign == "-");
    ParseIntFrom(sign + r, r, sign == "-");
  }

  /** A string made only of decimal digits is read whole. */
  lemma ReadAllDigits(r: string, v: nat, negative: bool)
    requires AllDigits(r, 10) && |r| >= 1 && Value(r, 10) == v
    ensures ReadDigits(r, 10, negative) == Some(if negative then -(v as int) else v)
  {
    assert DigitRun(r, 10) == |r| by { DigitRunAll(r, 10); }
    assert r[..|r|] == r;
  }

  /** `parseInt` once its body, radix and sign are known. */
  lemma ParseIntFrom(s: string, body: string, negative: bool)
    requires ParseBody(s) == body && ParseRadix(s) == 10 && Negative(s) == negative
    ensures ParseInt(s) == ReadDigits(body, 10, negative)
  {
  }

  /** ... and of a negative one, written with a leading minus sign. */
  lemma ParseIntOfNegative(n: nat)
    ensures ParseInt("-" + NatToString(n)) == Some(-(n as int))
  {
    ParseIntOfDigits(NatToString(n), "-", n);
  }
}
