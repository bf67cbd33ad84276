// \uXXXX escapes: four hex digits, surrogate pairs and their UTF-8 bytes.
module Utf16 {
  import opened Bytes

  const BACKSLASH: byte := 92
  const LETTER_U: byte := 117

  predicate IsHex(b: byte) {
    48 <= b <= 57 || 65 <= b <= 70 || 97 <= b <= 102
  }

  function HexValue(b: byte): (v: nat)
    requires IsHex(b)
    ensures v < 16
  {
    if b <= 57 then b - 48 else if b <= 70 then b - 55 else b - 87
  }

  // The hex digits in the order of their values.
  const UPPER: string := "0123456789ABCDEF"
  const LOWER: string := "0123456789abcdef"

  // b is the hex digit of value v, in either case.
  predicate DigitOf(b: byte, v: nat)
    requires v < 16
  {
    b == UPPER[v] as int || b == LOWER[v] as int
  }

  // Hex digits are those of the two tables, and a digit's value is its place there.
  lemma DigitValues(b: byte)
    ensures IsHex(b) <==> exists v: nat :: v < 16 && DigitOf(b, v)
    ensures forall v: nat :: v < 16 ==> (DigitOf(b, v) <==> IsHex(b) && HexValue(b) == v)
  {
    forall v: nat | v < 16 ensures DigitOf(b, v) <==> IsHex(b) && HexValue(b) == v {
      DigitIs(b, v);
    }
    if IsHex(b) {
      assert DigitOf(b, HexValue(b));
    }
  }

  lemma TablesByValue(v: nat)
    requires v < 16
    ensures UPPER[v] as int == if v < 10 then 48 + v else 55 + v
    ensures LOWER[v] as int == if v < 10 then 48 + v else 87 + v
  {
    if v < 10 {
      assert UPPER[..10] == LOWER[..10] == ['0', '1', '2', '3', '4', '5', '6', '7', '8', '9'];
    }
  }

  predicate FourHex(s: bytes, i: nat) {
    i + 4 <= |s| && IsHex(s[i]) && IsHex(s[i + 1]) && IsHex(s[i + 2]) && IsHex(s[i + 3])
  }

  // The code unit written at s[i..i + 4]; malformed digits count as 0, which callers accept.
  function Hex4(s: bytes, i: nat): (h: nat)
    requires i + 4 <= |s|
    ensures h < 0x10000
  {
    if FourHex(s, i) then
      0x1000 * HexValue(s[i]) + 0x100 * HexValue(s[i + 1]) + 0x10 * HexValue(s[i + 2]) + HexValue(s[i + 3])
    else 0
  }

  // The digits are accumulated by shifting; the first bad digit abandons what was read.
  method ParseHex4(input: bytes, at: nat) returns (h: nat)
    requires at + 4 <= |input|
    ensures h == Hex4(input, at)
  {
    h := 0;
    var i := 0;
    while i < 4
      invariant 0 <= i <= 4
      invariant forall k :: at <= k < at + i ==> IsHex(input[k])
      invariant h == Shifted(input, at, i)
    {
      var d: int := input[at + i];
      if 48 <= d <= 57 {
        h := h + (d - 48);
      } else if 65 <= d <= 70 {
        h := h + (10 + d - 65);
      } else if 97 <= d <= 102 {
        h := h + (10 + d - 97);
      } else {
        assert !FourHex(input, at);
        return 0;
      }
      if i < 3 {
        h := h * 16;
      }
      i := i + 1;
    }
  }

  // What the accumulator holds after k good digits: all but the last digit have been shifted k times.
  function Shifted(s: bytes, i: nat, k: nat): nat
    requires k <= 4 && i + k <= |s|
    requires forall j :: i <= j < i + k ==> IsHex(s[j])
  {
    if k == 0 then 0
    else if k == 1 then 0x10 * HexValue(s[i])
    else if k == 2 then 0x100 * HexValue(s[i]) + 0x10 * HexValue(s[i + 1])
    else if k == 3 then 0x1000 * HexValue(s[i]) + 0x100 * HexValue(s[i + 1]) + 0x10 * HexValue(s[i + 2])
    else 0x1000 * HexValue(s[i]) + 0x100 * HexValue(s[i + 1]) + 0x10 * HexValue(s[i + 2]) + HexValue(s[i + 3])
  }

  predicate HighSurrogate(u: nat) { 0xD800 <= u <= 0xDBFF }

  predicate LowSurrogate(u: nat) { 0xDC00 <= u <= 0xDFFF }

  predicate ScalarValue(cp: nat) {
    cp <= 0x10FFFF && !HighSurrogate(cp) && !LowSurrogate(cp)
  }

  // UTF-8, table of section 3 of RFC 3629.
  function Utf8(cp: nat): (r: bytes)
    requires cp <= 0x10FFFF
    ensures 1 <= |r| <= 4 && (cp < 0x10000 ==> |r| <= 3)
  {
    if cp < 0x80 then [cp]
    else if cp < 0x800 then [0xC0 + cp / 0x40, 0x80 + cp % 0x40]
    else if cp < 0x10000 then [0xE0 + cp / 0x1000, 0x80 + cp / 0x40 % 0x40, 0x80 + cp % 0x40]
    else [0xF0 + cp / 0x40000, 0x80 + cp / 0x1000 % 0x40, 0x80 + cp / 0x40 % 0x40, 0x80 + cp % 0x40]
  }

  predicate Tail(b: byte) { 0x80 <= b <= 0xBF }

  // The grammar of section 4 of RFC 3629: which byte sequences are one UTF-8 character.
  predicate Utf8Char(b: bytes) {
    || (|b| == 1 && b[0] <= 0x7F)
    || (|b| == 2 && 0xC2 <= b[0] <= 0xDF && Tail(b[1]))
    || (|b| == 3 && Tail(b[1]) && Tail(b[2]) &&
        ((b[0] == 0xE0 && 0xA0 <= b[1]) || 0xE1 <= b[0] <= 0xEC || (b[0] == 0xED && b[1] <= 0x9F)
            || 0xEE <= b[0] <= 0xEF))
    || (|b| == 4 && Tail(b[1]) && Tail(b[2]) && Tail(b[3]) &&
        ((b[0] == 0xF0 && 0x90 <= b[1]) || 0xF1 <= b[0] <= 0xF3 || (b[0] == 0xF4 && b[1] <= 0x8F)))
  }

  // The six bits carried by a continuation byte.
  function Payload(b: byte): (x: nat)
    requires Tail(b)
    ensures x < 0x40
  {
    b - 0x80
  }

  function Utf8Decode(b: bytes): nat
    requires Utf8Char(b)
  {
    var lead: int := b[0];
    if |b| == 1 then lead
    else if |b| == 2 then (lead - 0xC0) * 0x40 + Payload(b[1])
    else if |b| == 3 then (lead - 0xE0) * 0x1000 + Payload(b[1]) * 0x40 + Payload(b[2])
    else (lead - 0xF0) * 0x40000 + Payload(b[1]) * 0x1000 + Payload(b[2]) * 0x40 + Payload(b[3])
  }

  // Encoding a scalar value gives a character of the RFC's grammar that decodes to it ...
  lemma EncodingDecodes(cp: nat)
    requires ScalarValue(cp)
    ensures Utf8Char(Utf8(cp)) && Utf8Decode(Utf8(cp)) == cp
  {
    SixBitDigits(cp);
  }

  // ... and no other character does.
  lemma DecodingIsInjective(b: bytes)
    requires Utf8Char(b)
    ensures ScalarValue(Utf8Decode(b)) && b == Utf8(Utf8Decode(b))
  {
    var cp := Utf8Decode(b);
    var lead: int := b[0];
    if |b| == 2 {
      assert cp / 0x40 == lead - 0xC0 && cp % 0x40 == Payload(b[1]);
    } else if |b| == 3 {
      ThreeDigits(cp, lead - 0xE0, Payload(b[1]), Payload(b[2]));
    } else if |b| == 4 {
      FourDigits(cp, lead - 0xF0, Payload(b[1]), Payload(b[2]), Payload(b[3]));
    }
  }

  // Encoded characters are ordered by their first different byte as the values are ordered. (There is only one way to
  // number the characters of the grammar in their order.)
  lemma Utf8KeepsOrder(a: nat, b: nat) returns (k: nat)
    requires a < b <= 0x10FFFF
    ensures k < |Utf8(a)| && k < |Utf8(b)| && Utf8(a)[..k] == Utf8(b)[..k] && Utf8(a)[k] < Utf8(b)[k]
  {
    LongerIsLarger(a, b);
    DigitsInOrder(a, b);
    var n := |Utf8(a)|;
    if n != |Utf8(b)| {
      k := 0;
    } else if n <= 2 {
      k := if Utf8(a)[0] < Utf8(b)[0] then 0 else 1;
    } else {
      k := LongInOrder(a, b);
    }
  }

  lemma LongerIsLarger(a: nat, b: nat)
    requires a < b <= 0x10FFFF
    ensures |Utf8(a)| != |Utf8(b)| ==> Utf8(a)[0] < Utf8(b)[0]
  {
  }

  lemma LongInOrder(a: nat, b: nat) returns (k: nat)
    requires a < b <= 0x10FFFF && 3 <= |Utf8(a)| == |Utf8(b)|
    ensures k < |Utf8(a)| && Utf8(a)[..k] == Utf8(b)[..k] && Utf8(a)[k] < Utf8(b)[k]
  {
    DigitsInOrder(a, b);
    var m, n := Utf8(a), Utf8(b);
    k := if m[0] < n[0] then 0 else if m[1] < n[1] then 1 else if m[2] < n[2] then 2 else 3;
  }

  // The smaller number has the smaller digit where they first differ.
  lemma DigitsInOrder(a: nat, b: nat)
    requires a < b
    ensures a / 0x40000 <= b / 0x40000
    ensures a / 0x40000 == b / 0x40000 ==> a / 0x1000 <= b / 0x1000 && a / 0x1000 % 0x40 <= b / 0x1000 % 0x40
    ensures a / 0x1000 == b / 0x1000 ==> a / 0x40 <= b / 0x40 && a / 0x40 % 0x40 <= b / 0x40 % 0x40
    ensures a / 0x40 == b / 0x40 ==> a % 0x40 < b % 0x40
    ensures a / 0x1000 == b / 0x1000 && a / 0x40 % 0x40 == b / 0x40 % 0x40 ==> a / 0x40 == b / 0x40
    ensures a / 0x40000 == b / 0x40000 && a / 0x1000 % 0x40 == b / 0x1000 % 0x40 ==> a / 0x1000 == b / 0x1000
  {
    SixBitDigits(a);
    SixBitDigits(b);
  }

  lemma SixBitDigits(n: nat)
    ensures n == n / 0x40 * 0x40 + n % 0x40
    ensures n / 0x40 == n / 0x1000 * 0x40 + n / 0x40 % 0x40
    ensures n / 0x1000 == n / 0x40000 * 0x40 + n / 0x1000 % 0x40
  {
  }

  lemma ThreeDigits(n: nat, z: nat, y: nat, x: nat)
    requires n == z * 0x1000 + y * 0x40 + x && y < 0x40 && x < 0x40
    ensures n / 0x1000 == z && n / 0x40 % 0x40 == y && n % 0x40 == x
  {
    assert n / 0x40 == z * 0x40 + y;
  }

  lemma FourDigits(n: nat, w: nat, z: nat, y: nat, x: nat)
    requires n == w * 0x40000 + z * 0x1000 + y * 0x40 + x && z < 0x40 && y < 0x40 && x < 0x40
    ensures n / 0x40000 == w && n / 0x1000 % 0x40 == z && n / 0x40 % 0x40 == y && n % 0x40 == x
  {
    assert n / 0x40 == w * 0x1000 + z * 0x40 + y;
    assert n / 0x1000 == w * 0x40 + z;
  }

  datatype Literal = Literal(utf8: bytes, consumed: nat)

  // The code point of a surrogate pair.
  function PairCodePoint(high: nat, low: nat): nat {
    0x10000 + high % 0x400 * 0x400 + low % 0x400
  }

  // The escape that starts at s[i] in a text that ends before e: its UTF-8 bytes and its length.
  function LiteralAt(s: bytes, i: nat, e: nat): (r: Option<Literal>)
    requires i <= e <= |s|
    ensures r.Some? ==> i + r.value.consumed <= e && 1 <= |r.value.utf8|
    ensures r.Some? ==>
        (r.value.consumed == 6 && |r.value.utf8| <= 3) || (r.value.consumed == 12 && |r.value.utf8| == 4)
  {
    if e - i < 6 then None
    else
      var first := Hex4(s, i + 2);
      if LowSurrogate(first) then None
      else if !HighSurrogate(first) then Some(Literal(Utf8(first), 6))
      else if e - i < 12 || s[i + 6] != BACKSLASH || s[i + 7] != LETTER_U then None
      else
        var second := Hex4(s, i + 8);
        if !LowSurrogate(second) then None
        else Some(Literal(Utf8(PairCodePoint(first, second)), 12))
  }

  // What is left of a code point after n shifts by six bits.
  function DropSixBits(cp: nat, n: nat): nat
    requires n <= 3
  {
    if n == 0 then cp else if n == 1 then cp / 0x40 else if n == 2 then cp / 0x1000 else cp / 0x40000
  }

  lemma DropSixMore(cp: nat, n: nat)
    requires n < 3
    ensures DropSixBits(cp, n) / 0x40 == DropSixBits(cp, n + 1)
  {
  }

  function Mark(length: nat): byte {
    if length == 2 then 0xC0 else if length == 3 then 0xE0 else if length == 4 then 0xF0 else 0
  }

  lemma Utf8ByteAt(cp: nat, k: nat)
    requires cp <= 0x10FFFF && k < |Utf8(cp)|
    ensures k > 0 ==> Utf8(cp)[k] == 0x80 + DropSixBits(cp, |Utf8(cp)| - 1 - k) % 0x40
    ensures k == 0 ==> Utf8(cp)[0] == Mark(|Utf8(cp)|) + DropSixBits(cp, |Utf8(cp)| - 1)
  {
  }

  lemma FirstByte(cp: nat)
    requires cp <= 0x10FFFF
    ensures DropSixBits(cp, 0) == cp
    ensures var n := |Utf8(cp)|;
            Utf8(cp)[0] == if n > 1 then DropSixBits(cp, n - 1) + Mark(n) else DropSixBits(cp, 0) % 0x80
  {
  }

  // Writes the UTF-8 bytes from the last to the first, shifting the code point right by six bits a time.
  // `(codepoint | 0x80) & 0xBF` is 0x80 + codepoint % 0x40; the marks or-ed into the first byte are added.
  method EncodeUtf8(codepoint: nat, output: array<byte>, at: nat) returns (length: nat)
    requires codepoint <= 0x10FFFF
    requires at + |Utf8(codepoint)| <= output.Length
    modifies output
    ensures length == |Utf8(codepoint)|
    ensures output[..] == old(output[..at]) + Utf8(codepoint) + old(output[at + length..])
  {
    hide Utf8, DropSixBits, Mark;
    length := Utf8Length(codepoint);
    FirstByte(codepoint);
    ghost var was, text := output[..], Utf8(codepoint);
    var rest := codepoint;
    var position := length - 1;
    while position > 0
      invariant 0 <= position <= length - 1
      invariant rest == DropSixBits(codepoint, length - 1 - position)
      invariant output[..] == was[..at + position + 1] + text[position + 1..] + was[at + length..]
    {
      Utf8ByteAt(codepoint, position);
      DropSixMore(codepoint, length - 1 - position);
      Prepend(was, text, at, position);
      output[at + position] := 0x80 + rest % 0x40;
      rest := rest / 0x40;
      position := position - 1;
    }
    Prepend(was, text, at, 0);
    output[at] := if length > 1 then rest + Mark(length) else rest % 0x80;
    assert output[..] == was[..at] + text + was[at + length..];
  }

  method Utf8Length(codepoint: nat) returns (length: nat)
    requires codepoint <= 0x10FFFF
    ensures length == |Utf8(codepoint)|
  {
    if codepoint < 0x80 {
      length := 1;
    } else if codepoint < 0x800 {
      length := 2;
    } else if codepoint < 0x10000 {
      length := 3;
    } else {
      length := 4;
    }
  }

  // Storing one more byte in front of the part of the text that is already in place.
  lemma Prepend(was: bytes, text: bytes, at: nat, position: nat)
    requires position < |text| && at + |text| <= |was|
    ensures (was[..at + position + 1] + text[position + 1..] + was[at + |text|..])[at + position := text[position]]
            == was[..at + position] + text[position..] + was[at + |text|..]
  {
  }

  // On success the output cursor has advanced past the character's bytes; 0 means the literal is invalid.
  method ConvertLiteral(input: bytes, at: nat, end: nat, output: array<byte>, out: nat)
    returns (consumed: nat, newOut: nat)
    requires at <= end <= |input|
    requires out <= output.Length
    requires var r := LiteralAt(input, at, end); r.Some? ==> out + |r.value.utf8| <= output.Length
    modifies output
    ensures consumed == 0 <==> LiteralAt(input, at, end).None?
    ensures consumed == 0 ==> newOut == out && output[..] == old(output[..])
    ensures consumed != 0 ==> var r := LiteralAt(input, at, end).value;
              consumed == r.consumed && newOut == out + |r.utf8| &&
              output[..] == old(output[..out]) + r.utf8 + old(output[newOut..])
  {
    hide Hex4, FourHex, HexValue, Utf8;
    newOut := out;
    if end - at < 6 {
      return 0, out;
    }
    var first := ParseHex4(input, at + 2);
    if 0xDC00 <= first <= 0xDFFF {
      return 0, out;
    }
    var codepoint: nat;
    if 0xD800 <= first <= 0xDBFF {
      var second := at + 6;
      consumed := 12;
      if end - second < 6 {
        return 0, out;
      }
      if input[second] != BACKSLASH || input[second + 1] != LETTER_U {
        return 0, out;
      }
      var code := ParseHex4(input, second + 2);
      if code < 0xDC00 || code > 0xDFFF {
        return 0, out;
      }
      codepoint := 0x10000 + (first % 0x400 * 0x400 + code % 0x400);
    } else {
      consumed := 6;
      codepoint := first;
    }
    var length := EncodeUtf8(codepoint, output, out);
    newOut := out + length;
  }

  // \uXXXX at s[i], the four digits of the code unit u, most significant first, in any mix of cases.
  predicate UnitAt(s: bytes, i: nat, u: nat) {
    && i + 6 <= |s| && u < 0x10000 && s[i] == '\\' as int && s[i + 1] == 'u' as int
    && DigitOf(s[i + 2], u / 0x1000) && DigitOf(s[i + 3], u / 0x100 % 0x10)
    && DigitOf(s[i + 4], u / 0x10 % 0x10) && DigitOf(s[i + 5], u % 0x10)
  }

  // That is how the digits are read.
  lemma UnitIsHex4(s: bytes, i: nat, u: nat)
    requires i + 6 <= |s|
    ensures UnitAt(s, i, u) <==> s[i] == BACKSLASH && s[i + 1] == LETTER_U && FourHex(s, i + 2) && Hex4(s, i + 2) == u
  {
    hide DigitOf, IsHex, HexValue;
    if u < 0x10000 {
      DigitIs(s[i + 2], u / 0x1000);
      DigitIs(s[i + 3], u / 0x100 % 0x10);
      DigitIs(s[i + 4], u / 0x10 % 0x10);
      DigitIs(s[i + 5], u % 0x10);
      if FourHex(s, i + 2) {
        FourHexDigits(u, HexValue(s[i + 2]), HexValue(s[i + 3]), HexValue(s[i + 4]), HexValue(s[i + 5]));
      }
    }
  }

  lemma DigitIs(b: byte, v: nat)
    requires v < 16
    ensures DigitOf(b, v) <==> IsHex(b) && HexValue(b) == v
  {
    TablesByValue(v);
  }

  lemma FourHexDigits(n: nat, w: nat, z: nat, y: nat, x: nat)
    requires w < 0x10 && z < 0x10 && y < 0x10 && x < 0x10
    ensures n == 0x1000 * w + 0x100 * z + 0x10 * y + x
            <==> n / 0x1000 == w && n / 0x100 % 0x10 == z && n / 0x10 % 0x10 == y && n % 0x10 == x
  {
    if n == 0x1000 * w + 0x100 * z + 0x10 * y + x {
      HexSplits(n, w, z, y, x);
    }
    HexJoins(n);
  }

  lemma HexSplits(n: nat, w: nat, z: nat, y: nat, x: nat)
    requires n == 0x1000 * w + 0x100 * z + 0x10 * y + x && w < 0x10 && z < 0x10 && y < 0x10 && x < 0x10
    ensures n / 0x1000 == w && n / 0x100 % 0x10 == z && n / 0x10 % 0x10 == y && n % 0x10 == x
  {
    assert n / 0x10 == 0x100 * w + 0x10 * z + y;
    assert n / 0x100 == 0x10 * w + z;
  }

  lemma HexJoins(n: nat)
    ensures n == 0x1000 * (n / 0x1000) + 0x100 * (n / 0x100 % 0x10) + 0x10 * (n / 0x10 % 0x10) + n % 0x10
  {
    assert n / 0x100 == 0x10 * (n / 0x1000) + n / 0x100 % 0x10;
    assert n / 0x10 == 0x10 * (n / 0x100) + n / 0x10 % 0x10;
  }

  // How section 7 of RFC 8259 writes a code point: one unit, or the UTF-16 surrogate pair.
  predicate EscapeOf(s: bytes, i: nat, cp: nat) {
    if cp < 0x10000 then UnitAt(s, i, cp)
    else
      && cp <= 0x10FFFF && UnitAt(s, i, 0xD800 + (cp - 0x10000) / 0x400)
      && UnitAt(s, i + 6, 0xDC00 + (cp - 0x10000) % 0x400)
  }

  // Every escaped scalar value decodes to its UTF-8 bytes, consuming 6 or 12 bytes.
  lemma EscapesDecode(s: bytes, i: nat, e: nat, cp: nat)
    requires ScalarValue(cp) && EscapeOf(s, i, cp)
    requires i + (if cp < 0x10000 then 6 else 12) <= e <= |s|
    ensures LiteralAt(s, i, e) == Some(Literal(Utf8(cp), if cp < 0x10000 then 6 else 12))
  {
    hide Utf8, FourHex, Hex4, UnitAt;
    if cp >= 0x10000 {
      var high, low := 0xD800 + (cp - 0x10000) / 0x400, 0xDC00 + (cp - 0x10000) % 0x400;
      PairJoins(cp);
      UnitIsHex4(s, i, high);
      UnitIsHex4(s, i + 6, low);
    } else {
      UnitIsHex4(s, i, cp);
    }
  }

  lemma PairJoins(cp: nat)
    requires 0x10000 <= cp <= 0x10FFFF
    ensures var high, low := 0xD800 + (cp - 0x10000) / 0x400, 0xDC00 + (cp - 0x10000) % 0x400;
            HighSurrogate(high) && LowSurrogate(low) && PairCodePoint(high, low) == cp
  {
    var q, r := (cp - 0x10000) / 0x400, (cp - 0x10000) % 0x400;
    assert (0xD800 + q) % 0x400 == q;
    assert (0xDC00 + r) % 0x400 == r;
  }

  predicate EscapesScalar(s: bytes, i: nat, e: nat, cp: nat) {
    ScalarValue(cp) && EscapeOf(s, i, cp) && i + (if cp < 0x10000 then 6 else 12) <= e
  }

  lemma PairSplits(high: nat, low: nat)
    requires HighSurrogate(high) && LowSurrogate(low)
    ensures var cp := PairCodePoint(high, low);
            0x10000 <= cp <= 0x10FFFF && 0xD800 + (cp - 0x10000) / 0x400 == high
                && 0xDC00 + (cp - 0x10000) % 0x400 == low
  {
    var cp := PairCodePoint(high, low);
    assert cp - 0x10000 == (high - 0xD800) * 0x400 + (low - 0xDC00);
  }

  lemma AcceptedIsScalar(s: bytes, i: nat, e: nat) returns (cp: nat)
    requires i + 6 <= e <= |s| && s[i] == BACKSLASH && s[i + 1] == LETTER_U && FourHex(s, i + 2)
    requires LiteralAt(s, i, e).Some?
    ensures EscapesScalar(s, i, e, cp)
  {
    hide LiteralAt, FourHex, Hex4, UnitAt;
    AcceptedUnits(s, i, e);
    cp := Hex4(s, i + 2);
    UnitIsHex4(s, i, cp);
    if HighSurrogate(cp) {
      var high, low := cp, Hex4(s, i + 8);
      cp := PairCodePoint(high, low);
      PairSplits(high, low);
      UnitIsHex4(s, i + 6, low);
    }
  }

  lemma AcceptedUnits(s: bytes, i: nat, e: nat)
    requires i + 6 <= e <= |s| && LiteralAt(s, i, e).Some?
    ensures !LowSurrogate(Hex4(s, i + 2))
    ensures HighSurrogate(Hex4(s, i + 2)) ==>
        && i + 12 <= e && s[i + 6] == BACKSLASH && s[i + 7] == LETTER_U && FourHex(s, i + 8)
        && LowSurrogate(Hex4(s, i + 8))
  {
    hide HexValue;
  }

  // Which escapes are accepted: those that reach no further than e and have malformed first digits or are the escape of
  // a scalar value. Lone and reversed surrogates are rejected, and so is a high surrogate before malformed digits.
  lemma AcceptedExactly(s: bytes, i: nat, e: nat)
    requires i + 2 <= |s| && i <= e <= |s| && s[i] == '\\' as int && s[i + 1] == 'u' as int
    ensures LiteralAt(s, i, e).Some?
            <==> i + 6 <= e && (!FourHex(s, i + 2) || exists cp :: EscapesScalar(s, i, e, cp))
  {
    if i + 6 <= e {
      if !FourHex(s, i + 2) {
        MalformedDigitsGiveNul(s, i, e);
      } else if LiteralAt(s, i, e).Some? {
        var cp := AcceptedIsScalar(s, i, e);
      }
      if cp :| EscapesScalar(s, i, e, cp) {
        EscapesDecode(s, i, e, cp);
      }
    }
  }

  // Malformed digits are not an error: they decode to a NUL byte, which then ends the C string.
  lemma MalformedDigitsGiveNul(s: bytes, i: nat, e: nat)
    requires i + 6 <= e <= |s| && !FourHex(s, i + 2)
    ensures LiteralAt(s, i, e) == Some(Literal([0], 6))
  {
    assert Utf8(0) == [0];
  }
}
