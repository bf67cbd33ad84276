// JSON string literals: escaping, the two passes of unescaping, and the bound that keeps the second pass in its buffer.
module JsonString {
  import opened Bytes
  import opened Utf16

  const QUOTE: byte := 34
  const SLASH: byte := 47

  // ----- Printing -----

  // Lower-case hex digit, as %04x prints it.
  function HexDigit(v: nat): (b: byte)
    requires v < 16
    ensures IsHex(b) && HexValue(b) == v && b == LOWER[v] as int
  {
    TablesByValue(v);
    if v < 10 then 48 + v else 87 + v
  }

  // The letter of a two-character escape.
  function ShortEscape(c: byte): (r: Option<byte>) {
    if c == QUOTE || c == BACKSLASH then Some(c)
    else if c == 8 then Some(98)
    else if c == 12 then Some(102)
    else if c == 10 then Some(110)
    else if c == 13 then Some(114)
    else if c == 9 then Some(116)
    else None
  }

  // One byte of a text as it appears inside quotes.
  function EscapeByte(c: byte): (r: bytes)
    ensures 1 <= |r| <= 6
  {
    match ShortEscape(c)
    case Some(letter) => [BACKSLASH, letter]
    case None => if c < 32 then [BACKSLASH, LETTER_U, 48, 48, HexDigit(c / 16), HexDigit(c % 16)] else [c]
  }

  // How every byte is printed: quote, backslash and five control characters by a letter, the other control characters
  // by the four hex digits of their code, and everything else (a slash, too) as it is.
  lemma EscapeTable(c: byte)
    ensures EscapeByte('"' as int) == Ascii("\\\"") && EscapeByte('\\' as int) == Ascii("\\\\")
    ensures EscapeByte(8) == Ascii("\\b") && EscapeByte('\t' as int) == Ascii("\\t")
    ensures EscapeByte('\n' as int) == Ascii("\\n") && EscapeByte(12) == Ascii("\\f")
    ensures EscapeByte('\r' as int) == Ascii("\\r")
    ensures c < 32 && c !in [8, 9, 10, 12, 13] ==>
              EscapeByte(c) == Ascii("\\u00") + [LOWER[c / 16] as int, LOWER[c % 16] as int]
    ensures c >= 32 && c != '"' as int && c != '\\' as int ==> EscapeByte(c) == [c]
  {
    if c < 32 && c !in [8, 9, 10, 12, 13] {
      ControlEscape(c);
    }
    hide HexDigit;
  }

  lemma ControlEscape(c: byte)
    requires c < 32 && c !in [8, 9, 10, 12, 13]
    ensures EscapeByte(c) == Ascii("\\u00") + [LOWER[c / 16] as int, LOWER[c % 16] as int]
  {
    TablesByValue(c / 16);
    TablesByValue(c % 16);
    hide HexDigit;
    assert Ascii("\\u00") == [BACKSLASH, LETTER_U, 48, 48];
    assert ShortEscape(c).None?;
  }

  function Escape(t: bytes): (r: bytes)
    ensures |t| <= |r|
  {
    if t == [] then [] else EscapeByte(t[0]) + Escape(t[1..])
  }

  function Quoted(t: bytes): (r: bytes)
    ensures |r| == |Escape(t)| + 2 && r[0] == QUOTE
  {
    [QUOTE] + Escape(t) + [QUOTE]
  }

  lemma {:induction false} EscapeConcat(a: bytes, b: bytes)
    ensures Escape(a + b) == Escape(a) + Escape(b)
  {
    if a == [] {
      assert a + b == b;
    } else {
      assert (a + b)[1..] == a[1..] + b;
      EscapeConcat(a[1..], b);
    }
  }

  // ----- First pass: where the literal ends and how many units it has -----

  // The first quote from i on that no backslash precedes, reading backslash pairs left to right.
  function ScanEnd(s: bytes, i: nat): (r: Option<nat>)
    requires i <= |s|
    ensures r.Some? ==> i <= r.value < |s| && s[r.value] == QUOTE
    decreases |s| - i
  {
    if i == |s| then None
    else if s[i] == QUOTE then Some(i)
    else if s[i] != BACKSLASH then ScanEnd(s, i + 1)
    else if i + 1 == |s| then None
    else ScanEnd(s, i + 2)
  }

  // Raw bytes minus skipped bytes: every backslash pair and every other byte is one unit.
  function Units(s: bytes, i: nat): (n: nat)
    requires i <= |s| && ScanEnd(s, i).Some?
    ensures n <= ScanEnd(s, i).value - i
    ensures n == 0 <==> i == ScanEnd(s, i).value
    decreases |s| - i
  {
    if s[i] == QUOTE then 0
    else if s[i] != BACKSLASH then 1 + Units(s, i + 1)
    else 1 + Units(s, i + 2)
  }

  method FirstPass(s: bytes, start: nat) returns (end: Option<nat>, skipped: nat)
    requires start <= |s|
    ensures end == ScanEnd(s, start)
    ensures end.Some? ==> skipped <= end.value - start && end.value - start - skipped == Units(s, start)
  {
    var i := start;
    skipped := 0;
    while i < |s| && s[i] != QUOTE
      invariant start <= i <= |s|
      invariant skipped <= i - start
      invariant ScanEnd(s, start) == ScanEnd(s, i)
      invariant ScanEnd(s, i).Some? ==> i - start - skipped + Units(s, i) == Units(s, start)
    {
      if s[i] == BACKSLASH {
        if i + 1 >= |s| {
          return None, skipped;
        }
        skipped := skipped + 1;
        i := i + 1;
      }
      i := i + 1;
    }
    end := if i >= |s| then None else Some(i);
  }

  // ----- Second pass: what is written -----

  // The byte a two-character escape stands for.
  function ShortUnescape(c: byte): Option<byte> {
    if c == 98 then Some(8)
    else if c == 102 then Some(12)
    else if c == 110 then Some(10)
    else if c == 114 then Some(13)
    else if c == 116 then Some(9)
    else if c == QUOTE || c == BACKSLASH || c == SLASH then Some(c)
    else None
  }

  // The eight letters of section 7 of RFC 8259, and no others.
  lemma UnescapeTable(c: byte)
    ensures ShortUnescape('"' as int) == Some('"' as int) && ShortUnescape('\\' as int) == Some('\\' as int)
    ensures ShortUnescape('/' as int) == Some('/' as int)
    ensures ShortUnescape('b' as int) == Some(8) && ShortUnescape('t' as int) == Some('\t' as int)
    ensures ShortUnescape('n' as int) == Some('\n' as int) && ShortUnescape('f' as int) == Some(12)
    ensures ShortUnescape('r' as int) == Some('\r' as int)
    ensures ShortUnescape(c).Some? <==> c in Ascii("\"\\/btnfr")
  {
    var letters := Ascii("\"\\/btnfr");
    assert letters == [34, 92, 47, 98, 116, 110, 102, 114];
  }

  function Prefixed(p: bytes, r: Option<bytes>): Option<bytes> {
    match r
    case Some(t) => Some(p + t)
    case None => None
  }

  lemma PrefixedTwice(p: bytes, q: bytes, r: Option<bytes>)
    ensures Prefixed(p, Prefixed(q, r)) == Prefixed(p + q, r)
  {
    if r.Some? {
      assert p + (q + r.value) == p + q + r.value;
    }
  }

  lemma PrefixedNone(r: Option<bytes>)
    ensures Prefixed([], r) == r
  {
    if r.Some? {
      assert [] + r.value == r.value;
    }
  }

  // Everything the second pass writes from i on. A backslash just before e makes it read the closing quote at e.
  function Unescape(s: bytes, i: nat, e: nat): (r: Option<bytes>)
    requires i <= e + 1 && e < |s|
    decreases e + 1 - i
  {
    if i >= e then Some([])
    else if s[i] != BACKSLASH then Prefixed([s[i]], Unescape(s, i + 1, e))
    else if s[i + 1] == LETTER_U then
      match LiteralAt(s, i, e)
      case Some(lit) => Prefixed(lit.utf8, Unescape(s, i + lit.consumed, e))
      case None => None
    else
      match ShortUnescape(s[i + 1])
      case Some(c) => Prefixed([c], Unescape(s, i + 2, e))
      case None => None
  }

  // i is a place the first pass stopped at, or the second byte of a backslash pair that started at b.
  predicate InStep(s: bytes, b: nat, i: nat, e: nat) {
    b <= e < |s| && ScanEnd(s, b) == Some(e) && (b == i || (b + 1 == i && b < e && s[b] == BACKSLASH))
  }

  // The first-pass unit that covers position i.
  lemma {:induction false} FindUnit(s: bytes, b: nat, i: nat, e: nat) returns (c: nat)
    requires b <= i <= e < |s| && ScanEnd(s, b) == Some(e)
    ensures InStep(s, c, i, e) && b <= c
    ensures Units(s, c) <= Units(s, b) && (b < c ==> Units(s, c) < Units(s, b))
    decreases i - b
  {
    if b == i || (b + 1 == i && s[b] == BACKSLASH) {
      c := b;
    } else {
      c := FindUnit(s, if s[b] == BACKSLASH then b + 2 else b + 1, i, e);
    }
  }

  // Escape sequences: what is written is paid for by the units they leave behind, even when the two passes disagree
  // about where escapes start (a \u with malformed digits may swallow the first half of a pair).
  lemma LiteralIsPaidFor(s: bytes, b: nat, i: nat, e: nat) returns (c: nat)
    requires InStep(s, b, i, e) && i < e && s[i] == BACKSLASH && s[i + 1] == LETTER_U && LiteralAt(s, i, e).Some?
    ensures var lit := LiteralAt(s, i, e).value;
            InStep(s, c, i + lit.consumed, e) && |lit.utf8| + Units(s, c) <= Units(s, b)
  {
    LiteralSize(s, i, e);
    hide LiteralAt, FourHex;
    if FourHex(s, i + 2) {
      c := i + 6;
      AfterDigits(s, b, i, e);
      if LiteralAt(s, i, e).value.consumed == 12 {
        SecondUnit(s, c, e);
        c := c + 6;
      }
    } else {
      c := FindUnit(s, b, i + 6, e);
    }
  }

  lemma LiteralSize(s: bytes, i: nat, e: nat)
    requires i <= e <= |s| && LiteralAt(s, i, e).Some?
    ensures var lit := LiteralAt(s, i, e).value;
            && i + lit.consumed <= e && (lit.consumed == 6 || lit.consumed == 12)
            && (!FourHex(s, i + 2) ==> lit.consumed == 6 && |lit.utf8| == 1)
            && (lit.consumed == 6 ==> |lit.utf8| <= 3)
            && (lit.consumed == 12 ==>
                |lit.utf8| == 4 && s[i + 6] == BACKSLASH && s[i + 7] == LETTER_U && FourHex(s, i + 8))
  {
    hide HexValue;
  }

  // Digits after \u are read as four units, whether the backslash starts a pair or ends one.
  lemma AfterDigits(s: bytes, b: nat, i: nat, e: nat)
    requires InStep(s, b, i, e) && i + 6 <= e && s[i] == BACKSLASH && s[i + 1] == LETTER_U && FourHex(s, i + 2)
    ensures ScanEnd(s, i + 6) == Some(e) && Units(s, b) >= 5 + Units(s, i + 6)
  {
    hide FourHex;
    assert ScanEnd(s, i + 2) == Some(e) && Units(s, i + 2) < Units(s, b);
    PlainRun(s, i + 2, e);
  }

  // Four bytes that are neither quote nor backslash are four units.
  lemma PlainRun(s: bytes, d: nat, e: nat)
    requires d + 4 <= e < |s| && ScanEnd(s, d) == Some(e) && FourHex(s, d)
    ensures ScanEnd(s, d + 4) == Some(e) && Units(s, d) == 4 + Units(s, d + 4)
  {
    assert ScanEnd(s, d + 1) == Some(e) && Units(s, d) == 1 + Units(s, d + 1);
    assert ScanEnd(s, d + 2) == Some(e) && Units(s, d + 1) == 1 + Units(s, d + 2);
    assert ScanEnd(s, d + 3) == Some(e) && Units(s, d + 2) == 1 + Units(s, d + 3);
  }

  lemma SecondUnit(s: bytes, d: nat, e: nat)
    requires d + 6 <= e < |s| && ScanEnd(s, d) == Some(e)
    requires s[d] == BACKSLASH && s[d + 1] == LETTER_U && FourHex(s, d + 2)
    ensures ScanEnd(s, d + 6) == Some(e) && Units(s, d) == 5 + Units(s, d + 6)
  {
    assert ScanEnd(s, d + 2) == Some(e) && Units(s, d) == 1 + Units(s, d + 2);
    PlainRun(s, d + 2, e);
  }

  // A plain byte or a two-character escape writes one byte and leaves at least one unit behind.
  lemma ByteIsPaidFor(s: bytes, b: nat, i: nat, e: nat) returns (c: nat)
    requires InStep(s, b, i, e) && i < e && (s[i] == BACKSLASH ==> s[i + 1] != LETTER_U)
    ensures var next := if s[i] == BACKSLASH then i + 2 else i + 1;
            next <= e ==> InStep(s, c, next, e) && 1 + Units(s, c) <= Units(s, b)
    ensures 1 <= Units(s, b)
  {
    c := b;
    var next := if s[i] == BACKSLASH then i + 2 else i + 1;
    if next <= e {
      c := FindUnit(s, b, next, e);
    }
  }

  // The whole second pass writes no more bytes than the first pass counted units.
  lemma {:induction false} UnescapeBound(s: bytes, b: nat, i: nat, e: nat)
    requires InStep(s, b, i, e) && Unescape(s, i, e).Some?
    ensures |Unescape(s, i, e).value| <= Units(s, b)
    decreases e - i
  {
    if i < e {
      if s[i] == BACKSLASH && s[i + 1] == LETTER_U {
        var c := LiteralIsPaidFor(s, b, i, e);
        UnescapeBound(s, c, i + LiteralAt(s, i, e).value.consumed, e);
      } else {
        var next := if s[i] == BACKSLASH then i + 2 else i + 1;
        var c := ByteIsPaidFor(s, b, i, e);
        if next <= e {
          UnescapeBound(s, c, next, e);
        }
      }
    }
  }

  // Writes the unescaped text and its terminator. The buffer has the size the first pass computed, so every store below
  // is in bounds whatever the escapes contain, and the reads stop at the closing quote.
  method SecondPass(s: bytes, start: nat, end: nat, output: array<byte>) returns (ok: bool, length: nat, stop: nat)
    requires start <= end < |s| && ScanEnd(s, start) == Some(end)
    requires output.Length == Units(s, start) + 2
    modifies output
    ensures ok <==> Unescape(s, start, end).Some?
    ensures ok ==> length < output.Length && output[..length + 1] == Unescape(s, start, end).value + [0]
    ensures start <= stop <= end + 1
  {
    hide Units, ScanEnd, LiteralAt;
    var i, k := start, 0;
    ghost var b := start;
    PrefixedNone(Unescape(s, start, end));
    while i < end
      invariant start <= i <= end + 1 && k <= Units(s, start)
      invariant i < end ==> InStep(s, b, i, end) && k + Units(s, b) <= Units(s, start)
      invariant Unescape(s, start, end) == Prefixed(output[..k], Unescape(s, i, end))
      decreases end + 1 - i
    {
      ghost var done := output[..k];
      if s[i] != BACKSLASH {
        b := ByteIsPaidFor(s, b, i, end);
        output[k] := s[i];
        assert output[..k + 1] == done + [s[i]];
        PrefixedTwice(done, [s[i]], Unescape(s, i + 1, end));
        i, k := i + 1, k + 1;
      } else if s[i + 1] == LETTER_U {
        if LiteralAt(s, i, end).Some? {
          b := LiteralIsPaidFor(s, b, i, end);
        }
        var consumed, next := ConvertLiteral(s, i, end, output, k);
        if consumed == 0 {
          return false, k, i;
        }
        assert output[..next] == done + LiteralAt(s, i, end).value.utf8;
        PrefixedTwice(done, LiteralAt(s, i, end).value.utf8, Unescape(s, i + consumed, end));
        i, k := i + consumed, next;
      } else {
        match ShortUnescape(s[i + 1]) {
          case None =>
            return false, k, i;
          case Some(c) =>
            b := ByteIsPaidFor(s, b, i, end);
            output[k] := c;
            assert output[..k + 1] == done + [c];
            PrefixedTwice(done, [c], Unescape(s, i + 2, end));
            i, k := i + 2, k + 1;
        }
      }
    }
    output[k] := 0;
    ok, length, stop := true, k, i;
    assert output[..k + 1] == output[..k] + [0];
  }
}
