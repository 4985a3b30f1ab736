/** `encodeURIComponent` and `decodeURIComponent` (section 19.2.6 of ECMA-262):
    every character outside the unreserved set is written as the `%XX` escapes
    of its UTF-8 bytes, with upper-case hex digits. Characters are Unicode
    scalar values, so the lone-surrogate `URIError` of the encoder cannot arise. */
module Uri {
  import opened Wrappers

  /** Letters, digits and `-_.!~*'()` are copied as they are. */
  predicate Unreserved(c: char) {
    ('A' <= c <= 'Z') || ('a' <= c <= 'z') || ('0' <= c <= '9')
    || c == '-' || c == '_' || c == '.' || c == '!' || c == '~' || c == '*' || c == '\'' || c == '(' || c == ')'
  }

  /** A byte value. */
  predicate IsByte(b: int) {
    0 <= b < 256
  }

  /** The upper-case hex digit for `d`. */
  function HexDigit(d: int): (c: char)
    requires 0 <= d < 16
    ensures HexValue(c) == Some(d)
  {
    if d < 10 then ('0' as int + d) as char else ('A' as int + d - 10) as char
  }

  /** The value of a hex digit of either case. */
  function HexValue(c: char): (r: Option<int>)
    ensures r.Some? ==> 0 <= r.value < 16
  {
    if '0' <= c <= '9' then Some(c as int - '0' as int)
    else if 'A' <= c <= 'F' then Some(c as int - 'A' as int + 10)
    else if 'a' <= c <= 'f' then Some(c as int - 'a' as int + 10)
    else None
  }

  /** `%XX` for one byte. */
  function Percent(b: int): (r: string)
    requires IsByte(b)
    ensures |r| == 3 && r[0] == '%'
  {
    ['%', HexDigit(b / 16), HexDigit(b % 16)]
  }

  /** The UTF-8 encoding of a scalar value. */
  function Utf8(c: char): (bytes: seq<int>)
    ensures 1 <= |bytes| <= 4
    ensures forall i :: 0 <= i < |bytes| ==> IsByte(bytes[i])
  {
    var cp := c as int;
    var x1 := cp / 64;
    var x2 := x1 / 64;
    if cp < 0x80 then [cp]
    else if cp < 0x800 then [0xC0 + x1, 0x80 + cp % 64]
    else if cp < 0x10000 then [0xE0 + x2, 0x80 + x1 % 64, 0x80 + cp % 64]
    else [0xF0 + x2 / 64, 0x80 + x2 % 64, 0x80 + x1 % 64, 0x80 + cp % 64]
  }

  /** The escapes of a byte sequence, one `%XX` per byte. */
  function Percents(bytes: seq<int>): (r: string)
    requires forall i :: 0 <= i < |bytes| ==> IsByte(bytes[i])
    ensures |r| == 3 * |bytes|
  {
    if bytes == [] then [] else Percent(bytes[0]) + Percents(bytes[1..])
  }

  function EncodeChar(c: char): (r: string)
    ensures 1 <= |r|
    ensures forall i :: 0 <= i < |r| ==> Unreserved(r[i]) || r[i] == '%' || HexValue(r[i]).Some?
  {
    if Unreserved(c) then [c]
    else
      var bytes := Utf8(c);
      var r := Percents(bytes);
      PercentsAlphabet(bytes);
      r
  }

  lemma {:induction false} PercentsAlphabet(bytes: seq<int>)
    requires forall i :: 0 <= i < |bytes| ==> IsByte(bytes[i])
    ensures forall i :: 0 <= i < |Percents(bytes)| ==> Percents(bytes)[i] == '%' || HexValue(Percents(bytes)[i]).Some?
    decreases |bytes|
  {
    if bytes != [] {
      PercentsAlphabet(bytes[1..]);
    }
  }

  /** `encodeURIComponent`: the output holds only unreserved characters, `%` and
      hex digits, so in particular no `&`, `=`, `#`, `+` or space. */
  function Encode(s: string): (r: string)
    ensures forall i :: 0 <= i < |r| ==> Unreserved(r[i]) || r[i] == '%' || HexValue(r[i]).Some?
    ensures |r| >= |s|
  {
    if s == [] then [] else EncodeChar(s[0]) + Encode(s[1..])
  }

  /** The byte written as `%XX` at position `i`, if there is one. */
  function ByteAt(s: string, i: nat): (r: Option<int>)
    ensures r.Some? ==> IsByte(r.value) && i + 3 <= |s|
  {
    if i + 3 <= |s| && s[i] == '%' && HexValue(s[i + 1]).Some? && HexValue(s[i + 2]).Some? then
      Some(16 * HexValue(s[i + 1]).value + HexValue(s[i + 2]).value)
    else None
  }

  /** The byte at `i` is a UTF-8 continuation byte. */
  predicate Continuation(s: string, i: nat) {
    ByteAt(s, i).Some? && 0x80 <= ByteAt(s, i).value < 0xC0
  }

  /** The low six bits a continuation byte carries. */
  function Low(s: string, i: nat): int
    requires Continuation(s, i)
  {
    ByteAt(s, i).value - 0x80
  }

  /** A value that is a Unicode scalar (not a surrogate, at most U+10FFFF). */
  predicate IsScalar(cp: int) {
    (0 <= cp < 0xD800) || (0xE000 <= cp < 0x110000)
  }

  /** The character an escaped UTF-8 sequence at the front of `s` stands for, and
      the number of characters it takes; `None` for a malformed, overlong or
      surrogate sequence (`URIError`). */
  function DecodeEscape(s: string): (r: Option<(char, nat)>)
    ensures r.Some? ==> 3 <= r.value.1 <= |s|
  {
    match ByteAt(s, 0)
    case None => None
    case Some(b0) =>
      if b0 < 0x80 then Some((b0 as char, 3))
      else if 0xC0 <= b0 < 0xE0 && Continuation(s, 3) then
        var cp := (b0 - 0xC0) * 64 + Low(s, 3);
        if 0x80 <= cp then Some((cp as char, 6)) else None
      else if 0xE0 <= b0 < 0xF0 && Continuation(s, 3) && Continuation(s, 6) then
        var cp := ((b0 - 0xE0) * 64 + Low(s, 3)) * 64 + Low(s, 6);
        if 0x800 <= cp && IsScalar(cp) then Some((cp as char, 9)) else None
      else if 0xF0 <= b0 < 0xF8 && Continuation(s, 3) && Continuation(s, 6) && Continuation(s, 9) then
        var cp := (((b0 - 0xF0) * 64 + Low(s, 3)) * 64 + Low(s, 6)) * 64 + Low(s, 9);
        if 0x10000 <= cp && IsScalar(cp) then Some((cp as char, 12)) else None
      else None
  }

  /** `decodeURIComponent`: characters other than `%` stand for themselves. */
  function Decode(s: string): (r: Option<string>)
    decreases |s|
  {
    if s == [] then Some([])
    else if s[0] != '%' then
      match Decode(s[1..])
      case Some(rest) => Some([s[0]] + rest)
      case None => None
    else
      match DecodeEscape(s)
      case None => None
      case Some((c, n)) =>
        match Decode(s[n..])
        case Some(rest) => Some([c] + rest)
        case None => None
  }

  /** Reading one escape back gives the byte. */
  lemma PercentByte(b: int, rest: string)
    requires IsByte(b)
    ensures ByteAt(Percent(b) + rest, 0) == Some(b)
  {
    var s := Percent(b) + rest;
    assert s[1] == HexDigit(b / 16) && s[2] == HexDigit(b % 16);
  }

  /** The escape of `c`'s UTF-8 bytes decodes to `c`. */
  lemma DecodeEscapeOf(c: char, rest: string)
    requires !Unreserved(c)
    ensures DecodeEscape(EncodeChar(c) + rest) == Some((c, |EncodeChar(c)|))
  {
    var cp := c as int;
    var bytes := Utf8(c);
    var s := EncodeChar(c) + rest;
    assert s == Percents(bytes) + rest;
    assert ByteAt(s, 0) == Some(bytes[0]) by { EscapedByte(bytes, rest, 0); }
    if cp < 0x80 {
    } else if cp < 0x800 {
      assert DecodeEscape(s) == Some((c, 6)) by {
        EscapedByte(bytes, rest, 1);
        TwoBytes(c, s);
      }
    } else if cp < 0x10000 {
      assert DecodeEscape(s) == Some((c, 9)) by {
        EscapedByte(bytes, rest, 1);
        EscapedByte(bytes, rest, 2);
        ThreeBytes(c, s);
      }
    } else {
      assert DecodeEscape(s) == Some((c, 12)) by {
        EscapedByte(bytes, rest, 1);
        EscapedByte(bytes, rest, 2);
        EscapedByte(bytes, rest, 3);
        FourBytes(c, s);
      }
    }
  }

  lemma TwoBytes(c: char, s: string)
    requires 0x80 <= c as int < 0x800
    requires ByteAt(s, 0) == Some(0xC0 + (c as int) / 64) && ByteAt(s, 3) == Some(0x80 + (c as int) % 64)
    ensures DecodeEscape(s) == Some((c, 6))
  {
  }

  lemma ThreeBytes(c: char, s: string)
    requires 0x800 <= c as int < 0x10000
    requires ByteAt(s, 0) == Some(0xE0 + (c as int) / 64 / 64)
    requires ByteAt(s, 3) == Some(0x80 + (c as int) / 64 % 64) && ByteAt(s, 6) == Some(0x80 + (c as int) % 64)
    ensures DecodeEscape(s) == Some((c, 9))
  {
    var cp := c as int;
    var x1 := cp / 64;
    assert x1 == x1 / 64 * 64 + x1 % 64;
    assert cp == x1 * 64 + cp % 64;
  }

  lemma FourBytes(c: char, s: string)
    requires 0x10000 <= c as int
    requires ByteAt(s, 0) == Some(0xF0 + (c as int) / 64 / 64 / 64)
    requires ByteAt(s, 3) == Some(0x80 + (c as int) / 64 / 64 % 64) && ByteAt(s, 6) == Some(0x80 + (c as int) / 64 % 64)
    requires ByteAt(s, 9) == Some(0x80 + (c as int) % 64)
    ensures DecodeEscape(s) == Some((c, 12))
  {
    var cp := c as int;
    var x1 := cp / 64;
    var x2 := x1 / 64;
    assert x2 == x2 / 64 * 64 + x2 % 64;
    assert x1 == x2 * 64 + x1 % 64;
    assert cp == x1 * 64 + cp % 64;
  }

  /** The `j`-th escape of a byte sequence reads back as its `j`-th byte. */
  lemma {:induction false} EscapedByte(bytes: seq<int>, rest: string, j: nat)
    requires forall i :: 0 <= i < |bytes| ==> IsByte(bytes[i])
    requires j < |bytes|
    ensures ByteAt(Percents(bytes) + rest, 3 * j) == Some(bytes[j])
    decreases j
  {
    var s := Percents(bytes) + rest;
    var tail := Percents(bytes[1..]) + rest;
    assert s == Percent(bytes[0]) + tail;
    if j == 0 {
      PercentByte(bytes[0], tail);
    } else {
      EscapedByte(bytes[1..], rest, j - 1);
      assert s[3..] == tail;
      ByteAtShift(s, 3 * (j - 1), 3);
    }
  }

  /** `ByteAt` only looks at the three characters from `i` on. */
  lemma ByteAtShift(s: string, i: nat, k: nat)
    requires k <= |s|
    ensures ByteAt(s, i + k) == ByteAt(s[k..], i)
  {
  }

  /** Decoding the encoding of one character followed by anything decodable. */
  lemma DecodeCons(c: char, rest: string, tail: string)
    requires Decode(rest) == Some(tail)
    ensures Decode(EncodeChar(c) + rest) == Some([c] + tail)
  {
    var e := EncodeChar(c) + rest;
    if Unreserved(c) {
      assert e[0] == c && e[1..] == rest;
    } else {
      DecodeEscapeOf(c, rest);
      var bytes := Utf8(c);
      assert EncodeChar(c) == Percent(bytes[0]) + Percents(bytes[1..]);
      assert e[0] == '%';
      assert e[|EncodeChar(c)|..] == rest;
    }
  }

  /** `decodeURIComponent(encodeURIComponent(s)) == s`. */
  lemma {:induction false} DecodeEncode(s: string)
    ensures Decode(Encode(s)) == Some(s)
    decreases |s|
  {
    if s != [] {
      var tail := Encode(s[1..]);
      assert Encode(s) == EncodeChar(s[0]) + tail;
      DecodeEncode(s[1..]);
      DecodeCons(s[0], tail, s[1..]);
      assert [s[0]] + s[1..] == s;
    }
  }
}
