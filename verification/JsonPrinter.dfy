// The printer: text is written into a buffer that grows on demand, through pointers handed out by `Ensure`.
module JsonPrinter {
  import opened Bytes
  import opened Utf16
  import opened JsonValue
  import opened JsonNumber
  import opened JsonString
  import opened JsonText

  // ----- Facts about printed text -----

  lemma {:induction false} EscapeNoNul(t: bytes)
    ensures NoNul(Escape(t))
  {
    if t != [] {
      EscapeNoNul(t[1..]);
      NoNulConcat(EscapeByte(t[0]), Escape(t[1..]));
    }
  }

  lemma QuotedNoNul(t: bytes)
    ensures NoNul(Quoted(t))
  {
    EscapeNoNul(t);
  }

  lemma {:induction false} PrintNoNul(v: Value, format: bool, depth: nat)
    ensures NoNul(Print(v, format, depth))
    decreases v, 0
  {
    hide PrintItems, PrintMembers, PrintInt, Quoted;
    match v {
      case Number(n) => PrintIntBytes(n);
      case String(t) => QuotedNoNul(t);
      case Array(items) => PrintItemsNoNul(items, format, depth + 1);
      case Object(ms) => PrintMembersNoNul(ms, format, depth + 1);
      case _ =>
    }
  }

  lemma {:induction false} PrintItemsNoNul(items: seq<Value>, format: bool, depth: nat)
    ensures NoNul(PrintItems(items, format, depth))
    decreases items, 1
  {
    if items != [] {
      PrintNoNul(items[0], format, depth);
      PrintItemsNoNul(items[1..], format, depth);
    }
  }

  lemma {:induction false} PrintMembersNoNul(ms: seq<Member>, format: bool, depth: nat)
    ensures NoNul(PrintMembers(ms, format, depth))
    decreases ms, 1
  {
    if ms != [] {
      QuotedNoNul(ms[0].key);
      PrintNoNul(ms[0].value, format, depth);
      PrintMembersNoNul(ms[1..], format, depth);
    }
  }

  // Additional bytes the escaped form of one byte needs, as the first pass of print_string_ptr counts them.
  function Extra(c: byte): nat {
    if ShortEscape(c).Some? then 1 else if c < 32 then 5 else 0
  }

  function Extras(t: bytes): nat {
    if t == [] then 0 else Extra(t[0]) + Extras(t[1..])
  }

  // The first pass counts exactly what the second pass emits.
  lemma {:induction false} ExtrasCountEscapes(t: bytes)
    ensures |Escape(t)| == |t| + Extras(t)
    ensures Extras(t) == 0 ==> Escape(t) == t
  {
    if t != [] {
      ExtrasCountEscapes(t[1..]);
      assert |EscapeByte(t[0])| == 1 + Extra(t[0]);
      assert [t[0]] + t[1..] == t;
    }
  }

  lemma {:induction false} ExtrasConcat(a: bytes, b: bytes)
    ensures Extras(a + b) == Extras(a) + Extras(b)
  {
    if a == [] {
      assert a + b == b;
    } else {
      assert (a + b)[1..] == a[1..] + b;
      ExtrasConcat(a[1..], b);
    }
  }

  lemma {:induction false} DigitsLength(n: nat, k: nat)
    requires k > 0 && n < Pow10(k)
    ensures |Digits(n)| <= k
    decreases k
  {
    if n >= 10 {
      assert k > 1;
      DigitsLength(n / 10, k - 1);
    }
  }

  // Every int fits the 26-byte scratch buffer of print_number.
  lemma IntFitsScratch(n: int)
    requires INT_MIN <= n <= INT_MAX
    ensures |PrintInt(n)| <= 11
  {
    assert Pow10(10) == 10000000000 by {
      assert Pow10(5) == 100000;
    }
    DigitsLength(if n < 0 then -n else n, 10);
  }

  class PrintBuffer {
    var buffer: array<byte>
    var length: nat
    var offset: nat
    var depth: nat
    const noalloc: bool
    const format: bool
    // One past the last index the latest successful Ensure allows its caller to write.
    ghost var granted: nat

    constructor (size: nat, noalloc: bool, format: bool)
      requires size <= INT_MAX
      ensures Valid() && fresh(buffer) && length == size && offset == 0 && depth == 0
      ensures this.noalloc == noalloc && this.format == format
    {
      buffer := new byte[size];
      length, offset, depth, granted := size, 0, 0, 0;
      this.noalloc, this.format := noalloc, format;
    }

    ghost predicate Valid()
      reads this
    {
      && buffer.Length == length <= INT_MAX
      && (offset < length || (length == 0 && offset == 0))
      && granted <= length
    }

    // The largest size the buffer may get.
    ghost function Limit(): nat
      reads this
    {
      if noalloc then length else INT_MAX
    }

    // Printing a text of n bytes at the offset succeeds: two bytes more than the text must be available.
    ghost predicate Fits(n: nat)
      reads this
    {
      offset + n + 2 <= Limit()
    }

    // Make room for `needed` more bytes and one terminator, doubling the size when the buffer is moved.
    method Ensure(needed: nat) returns (ok: bool)
      requires Valid()
      modifies `buffer, `length, `granted
      ensures Valid() && (buffer == old(buffer) || fresh(buffer))
      ensures ok <==> offset + needed + 1 <= old(Limit())
      ensures Limit() == old(Limit()) && old(length) <= length
      ensures buffer[..old(length)] == old(buffer[..])
      ensures ok ==> granted == offset + needed && granted < length
      // the buffer stays if it is large enough, and otherwise gets twice what is needed, as far as an int can say
      ensures ok && offset + needed + 1 <= old(length) ==> buffer == old(buffer)
      ensures ok && offset + needed + 1 > old(length) ==>
          fresh(buffer) && length == if offset + needed + 1 <= 1073741823 then 2 * (offset + needed + 1) else 2147483647
    {
      if length > 0 && offset >= length {
        return false;
      }
      if needed > INT_MAX {
        return false;
      }
      var total := needed + offset + 1;
      if total <= length {
        granted := offset + needed;
        return true;
      }
      if noalloc {
        return false;
      }
      var newSize;
      if total > INT_MAX / 2 {
        if total <= INT_MAX {
          newSize := INT_MAX;
        } else {
          return false;
        }
      } else {
        newSize := total * 2;
      }
      var bigger := new byte[newSize];
      forall i | 0 <= i < length {
        bigger[i] := buffer[i];
      }
      buffer, length := bigger, newSize;
      granted := offset + needed;
      ok := true;
    }

    // Store bytes through the pointer that Ensure returned; never outside what it granted.
    method Emit(at: nat, p: bytes)
      requires Valid() && at + |p| <= granted
      modifies buffer
      ensures buffer[..at + |p|] == old(buffer[..at]) + p
      ensures buffer[at + |p|..] == old(buffer[at + |p|..])
    {
      forall i | 0 <= i < |p| {
        buffer[at + i] := p[i];
      }
    }

    // strlen from the offset.
    method UpdateOffset(ghost end: nat)
      requires Valid() && offset <= end < length && buffer[end] == 0
      requires forall i :: offset <= i < end ==> buffer[i] != 0
      modifies `offset
      ensures offset == end
    {
      while buffer[offset] != 0
        invariant old(offset) <= offset <= end
        decreases end - offset
      {
        offset := offset + 1;
      }
    }

    // The buffer holds base, then the text p and its terminator; the offset is somewhere inside p or just after it.
    ghost predicate Holds(base: bytes, p: bytes)
      reads this, buffer
    {
      && Valid()
      && |base| <= offset <= |base| + |p| < length
      && buffer[..|base| + |p| + 1] == base + p + [0]
    }

    // The offset stands right after base and the text p.
    ghost predicate Has(base: bytes, p: bytes)
      reads this, buffer
    {
      && Valid()
      && offset == |base| + |p|
      && buffer[..offset] == base + p
    }

    lemma Joined(base: bytes, p: bytes, q: bytes)
      requires Has(base + p, q)
      ensures Has(base, p + q)
    {
      assert base + p + q == base + (p + q);
    }

    // Move past a text that was just printed.
    method Advance(ghost base: bytes, ghost p: bytes)
      requires Holds(base, p) && NoNul(p)
      modifies `offset
      ensures Has(base, p)
    {
      ghost var end := |base| + |p|;
      forall i | |base| <= i < end ensures buffer[i] != 0 {
        assert buffer[..end + 1][i] == p[i - |base|];
      }
      assert buffer[..end + 1][end] == 0;
      UpdateOffset(end);
      assert buffer[..end] == buffer[..end + 1][..end];
    }

    // Room for the text and its terminator, then both are stored.
    method PrintTerminated(p: bytes) returns (ok: bool)
      requires Valid()
      modifies this, buffer
      ensures ok <==> old(Fits(|p|))
      ensures ok ==> Holds(old(buffer[..offset]), p) && offset == old(offset)
      ensures ok ==> buffer == old(buffer) || fresh(buffer)
      ensures Limit() == old(Limit()) && depth == old(depth)
    {
      ghost var base := buffer[..offset];
      ok := Ensure(|p| + 1);
      if ok {
        assert buffer[..offset] == base;
        Emit(offset, p + [0]);
        assert base + (p + [0]) == base + p + [0];
      }
    }

    // Ask for `needed` bytes, store p there (with a terminator if told so) and move the offset past p.
    method Put(p: bytes, needed: nat, terminate: bool, ghost base: bytes, ghost text: bytes) returns (ok: bool)
      requires Has(base, text) && |p| + (if terminate then 1 else 0) <= needed
      modifies this, buffer
      ensures ok <==> old(offset) + needed + 1 <= old(Limit())
      ensures ok ==> Has(base, text + p)
      ensures ok ==> buffer == old(buffer) || fresh(buffer)
      ensures Limit() == old(Limit()) && depth == old(depth)
    {
      ok := Ensure(needed);
      if ok {
        assert buffer[..offset] == base + text;
        Emit(offset, if terminate then p + [0] else p);
        offset := offset + |p|;
        assert base + text + p == base + (text + p);
        assert buffer[..offset] == base + (text + p);
      }
    }

    method PrintValue(v: Value) returns (ok: bool)
      requires Valid() && WellFormed(v)
      modifies this, buffer
      ensures ok <==> old(Fits(|Print(v, format, depth)|))
      ensures ok ==> Holds(old(buffer[..offset]), old(Print(v, format, depth)))
      ensures ok ==> buffer == old(buffer) || fresh(buffer)
      ensures Limit() == old(Limit()) && (ok ==> depth == old(depth))
      decreases v, 2
    {
      match v {
        case Null => ok := PrintTerminated(NULL_TEXT);
        case False => ok := PrintTerminated(FALSE_TEXT);
        case True => ok := PrintTerminated(TRUE_TEXT);
        case Number(n) => ok := PrintNumber(n);
        case String(t) => ok := PrintString(t);
        case Array(items) => ok := PrintArray(v);
        case Object(ms) => ok := PrintObject(v);
      }
    }

    method PrintNumber(n: int) returns (ok: bool)
      requires Valid() && INT_MIN <= n <= INT_MAX
      modifies this, buffer
      ensures ok <==> old(Fits(|PrintInt(n)|))
      ensures ok ==> Holds(old(buffer[..offset]), PrintInt(n))
      ensures ok ==> buffer == old(buffer) || fresh(buffer)
      ensures Limit() == old(Limit()) && depth == old(depth)
    {
      var scratch := PrintInt(n);
      IntFitsScratch(n);
      if |scratch| > 25 {
        return false;
      }
      ok := PrintTerminated(scratch);
      if ok {
        offset := offset + |scratch|;
      }
    }

    // print_string_ptr: count, reserve, then copy with escapes.
    method PrintString(t: bytes) returns (ok: bool)
      requires Valid() && 0 !in t
      modifies this, buffer
      ensures ok <==> old(Fits(|Quoted(t)|))
      ensures ok ==> Holds(old(buffer[..offset]), Quoted(t)) && offset == old(offset)
      ensures ok ==> buffer == old(buffer) || fresh(buffer)
      ensures Limit() == old(Limit()) && depth == old(depth)
    {
      hide Escape, EscapeByte, Extra, Extras, Quoted;
      ghost var base := buffer[..offset];
      var escapes := CountEscapes(t);
      ExtrasCountEscapes(t);
      var total := |t| + escapes;
      ok := Ensure(total + 3);
      if !ok {
        return;
      }
      assert buffer[..offset] == base;
      if escapes == 0 {
        CopyPlain(t, base);
      } else {
        CopyQuoted(t, base);
      }
    }

    // A text without escapes: both quotes around a plain copy.
    method CopyPlain(t: bytes, ghost base: bytes)
      requires Valid() && Escape(t) == t && granted == offset + |t| + 3 && granted < length
      requires offset == |base| && buffer[..offset] == base
      modifies buffer
      ensures Holds(base, Quoted(t))
    {
      hide Escape, Quoted;
      Emit(offset, [QUOTE] + t + [QUOTE, 0]);
      QuotedPieces(base, t);
    }

    method CopyQuoted(t: bytes, ghost base: bytes)
      requires Valid() && 0 !in t && granted == offset + |Escape(t)| + 3 && granted < length
      requires offset == |base| && buffer[..offset] == base
      modifies buffer
      ensures Holds(base, Quoted(t))
    {
      hide Escape, Quoted;
      Emit(offset, [QUOTE]);
      var out := CopyEscaped(t, base);
      Emit(out, [QUOTE, 0]);
      QuotedPieces(base, t);
    }

    method CountEscapes(t: bytes) returns (escapes: nat)
      ensures escapes == Extras(t)
    {
      escapes := 0;
      var i := 0;
      while i < |t|
        invariant i <= |t| && escapes == Extras(t[..i])
      {
        ExtrasConcat(t[..i], [t[i]]);
        assert t[..i] + [t[i]] == t[..i + 1];
        if ShortEscape(t[i]).Some? {
          escapes := escapes + 1;
        } else if t[i] < 32 {
          escapes := escapes + 5;
        }
        i := i + 1;
      }
      assert t[..i] == t;
    }

    // The escaped bytes after the opening quote, written through an output position that runs ahead of the input.
    method CopyEscaped(t: bytes, ghost base: bytes) returns (out: nat)
      requires Valid() && 0 !in t && granted == offset + |Escape(t)| + 3 && offset == |base|
      requires buffer[..offset + 1] == base + [QUOTE]
      modifies buffer
      ensures Valid() && out == offset + 1 + |Escape(t)| && buffer[..out] == base + [QUOTE] + Escape(t)
    {
      hide EscapeByte, Escape;
      out := offset + 1;
      var i := 0;
      EmptyEscape();
      assert base + [QUOTE] + [] == base + [QUOTE];
      while i < |t|
        invariant i <= |t| && out == offset + 1 + |Escape(t[..i])| <= offset + 1 + |Escape(t)|
        invariant buffer[..out] == base + [QUOTE] + Escape(t[..i])
      {
        EscapeStep(t, i);
        out := EmitEscaped(out, t[i]);
        assert base + [QUOTE] + Escape(t[..i]) + EscapeByte(t[i])
            == base + [QUOTE] + (Escape(t[..i]) + EscapeByte(t[i]));
        i := i + 1;
      }
      assert t[..i] == t;
    }

    // One byte, escaped if need be. For \u00XX sprintf also stores a terminator, which the next byte overwrites.
    method EmitEscaped(at: nat, c: byte) returns (out: nat)
      requires Valid() && at + |EscapeByte(c)| < granted
      modifies buffer
      ensures out == at + |EscapeByte(c)| && buffer[..out] == old(buffer[..at]) + EscapeByte(c)
    {
      if c > 31 && c != QUOTE && c != BACKSLASH {
        Emit(at, [c]);
        return at + 1;
      }
      ghost var base := buffer[..at];
      Emit(at, [BACKSLASH]);
      match ShortEscape(c) {
        case Some(letter) =>
          Emit(at + 1, [letter]);
          out := at + 2;
          assert base + [BACKSLASH] + [letter] == base + [BACKSLASH, letter];
        case None =>
          EmitHex(at + 1, c);
          out := at + 6;
          UnicodeEscape(base, c);
      }
    }

    // sprintf(output, "u%04x", c): five bytes and a terminator.
    method EmitHex(at: nat, c: byte)
      requires Valid() && at + 6 <= granted && c < 32
      modifies buffer
      ensures buffer[..at + 5] == old(buffer[..at]) + [LETTER_U, 48, 48, HexDigit(c / 16), HexDigit(c % 16)]
    {
      ghost var base := buffer[..at];
      var hex := [LETTER_U, 48, 48, HexDigit(c / 16), HexDigit(c % 16)];
      Emit(at, hex + [0]);
      assert buffer[..at + 5] == buffer[..at + 6][..at + 5];
      assert (base + (hex + [0]))[..at + 5] == base + hex;
    }

    // The opening bracket or brace, after which printing is one level deeper.
    method PrintOpen(open: bytes, needed: nat) returns (ok: bool)
      requires Valid() && |open| <= needed
      modifies this, buffer
      ensures ok <==> old(offset) + needed + 1 <= old(Limit())
      ensures ok ==> Has(old(buffer[..offset]), open) && depth == old(depth) + 1
      ensures ok ==> buffer == old(buffer) || fresh(buffer)
      ensures Limit() == old(Limit())
    {
      ghost var base := buffer[..offset];
      assert base + [] == base && [] + open == open;
      ok := Put(open, needed, false, base, []);
      if ok {
        depth := depth + 1;
      }
    }

    // The closing text is stored with a terminator; the offset stays in front of it.
    method PrintClose(p: bytes, ghost base: bytes, ghost text: bytes) returns (ok: bool)
      requires Has(base, text) && depth > 0
      modifies this, buffer
      ensures ok <==> old(Fits(|p|))
      ensures ok ==> Holds(base, text + p) && depth == old(depth) - 1
      ensures ok ==> buffer == old(buffer) || fresh(buffer)
      ensures Limit() == old(Limit())
    {
      ok := PrintTerminated(p);
      if ok {
        assert base + text + p + [0] == base + (text + p) + [0];
        depth := depth - 1;
      }
    }

    method PrintArray(v: Value) returns (ok: bool)
      requires Valid() && v.Array? && WellFormed(v)
      modifies this, buffer
      ensures ok <==> old(Fits(|Print(v, format, depth)|))
      ensures ok ==> Holds(old(buffer[..offset]), old(Print(v, format, depth)))
      ensures ok ==> buffer == old(buffer) || fresh(buffer)
      ensures Limit() == old(Limit()) && (ok ==> depth == old(depth))
      decreases v, 1
    {
      hide Print, PrintItems, WellFormed, Has, Holds;
      ghost var base, all := buffer[..offset], PrintItems(v.items, format, depth + 1);
      ArrayText(v, format, depth);
      ok := PrintOpen([OPEN_BRACKET], 1);
      if !ok {
        return;
      }
      Standing(base, [OPEN_BRACKET]);
      ok := PrintElements(v, base, [OPEN_BRACKET]);
      if !ok {
        return;
      }
      Standing(base, [OPEN_BRACKET] + all);
      ok := PrintClose([CLOSE_BRACKET], base, [OPEN_BRACKET] + all);
    }

    // The element loop of print_array; text is what has been printed since base.
    method PrintElements(v: Value, ghost base: bytes, ghost text: bytes) returns (ok: bool)
      requires Has(base, text) && v.Array? && WellFormed(v)
      modifies this, buffer
      ensures ok ==> Has(base, text + old(PrintItems(v.items, format, depth)))
      ensures !ok ==> old(!Fits(|PrintItems(v.items, format, depth)|))
      ensures ok ==> buffer == old(buffer) || fresh(buffer)
      ensures Limit() == old(Limit()) && (ok ==> depth == old(depth))
      decreases v, 0
    {
      hide Print, PrintItems, Has, WellFormed, ItemSeparator;
      var i := 0;
      ghost var done := [];
      ghost var all := PrintItems(v.items, format, depth);
      assert text + [] == text && v.items[0..] == v.items && [] + all == all;
      Standing(base, text);
      ItemsWellFormed(v);
      while i < |v.items|
        invariant i <= |v.items| && depth == old(depth) && Limit() == old(Limit())
        invariant buffer == old(buffer) || fresh(buffer)
        invariant Has(base, text + done) && offset == |base| + |text| + |done|
        invariant all == done + PrintItems(v.items[i..], format, depth)
      {
        ItemsText(v.items, i, format, depth);
        ghost var rest := PrintItems(v.items[i + 1..], format, depth);
        ok := PrintElement(v.items[i], i + 1 == |v.items|, base, text + done);
        if !ok {
          return;
        }
        ghost var printed := ElementText(v.items[i], i + 1 == |v.items|, format, depth);
        assert text + done + printed == text + (done + printed) && done + (printed + rest) == (done + printed) + rest;
        done := done + printed;
        Standing(base, text + done);
        i := i + 1;
      }
      NoItemsText(format, depth);
      assert v.items[i..] == [] && all == done;
      ok := true;
    }

    // One element and the separator behind it.
    method PrintElement(item: Value, last: bool, ghost base: bytes, ghost text: bytes) returns (ok: bool)
      requires Has(base, text) && WellFormed(item)
      modifies this, buffer
      ensures ok ==> Has(base, text + old(ElementText(item, last, format, depth)))
      ensures ok <==> old(Fits(|ElementText(item, last, format, depth)|))
      ensures ok ==> buffer == old(buffer) || fresh(buffer)
      ensures Limit() == old(Limit()) && (ok ==> depth == old(depth))
      decreases item, 4
    {
      hide Print, Has, WellFormed, ItemSeparator;
      Standing(base, text);
      ghost var printed := Print(item, format, depth);
      ok := PrintItem(item, base, text);
      if !ok {
        return;
      }
      Standing(base, text + printed);
      if last {
        assert printed + [] == printed;
      } else {
        var separator := ItemSeparator(format);
        ok := Put(separator, |separator| + 1, true, base, text + printed);
        assert text + printed + separator == text + (printed + separator);
      }
    }

    method PrintObject(v: Value) returns (ok: bool)
      requires Valid() && v.Object? && WellFormed(v)
      modifies this, buffer
      ensures ok <==> old(Fits(|Print(v, format, depth)|))
      ensures ok ==> Holds(old(buffer[..offset]), old(Print(v, format, depth)))
      ensures ok ==> buffer == old(buffer) || fresh(buffer)
      ensures Limit() == old(Limit()) && (ok ==> depth == old(depth))
      decreases v, 1
    {
      hide Print, PrintMembers, WellFormed, Has, Holds, IfFormatted, Tabs;
      ghost var base, all := buffer[..offset], PrintMembers(v.members, format, depth + 1);
      ObjectText(v, format, depth);
      var open, close := [OPEN_BRACE] + IfFormatted(format, [NEWLINE]),
          IfFormatted(format, Tabs(depth)) + [CLOSE_BRACE];
      ok := PrintOpen(open, |open| + 1);
      if !ok {
        return;
      }
      Standing(base, open);
      ok := PrintMemberList(v, base, open);
      if !ok {
        return;
      }
      Standing(base, open + all);
      ok := PrintClose(close, base, open + all);
    }

    // The member loop of print_object; text is what has been printed since base.
    method PrintMemberList(v: Value, ghost base: bytes, ghost text: bytes) returns (ok: bool)
      requires Has(base, text) && v.Object? && WellFormed(v)
      modifies this, buffer
      ensures ok ==> Has(base, text + old(PrintMembers(v.members, format, depth)))
      ensures !ok ==> old(!Fits(|PrintMembers(v.members, format, depth)|))
      ensures ok ==> buffer == old(buffer) || fresh(buffer)
      ensures Limit() == old(Limit()) && (ok ==> depth == old(depth))
      decreases v, 0
    {
      hide MemberText, PrintMembers;
      var i := 0;
      ghost var done := [];
      ghost var all := PrintMembers(v.members, format, depth);
      assert text + [] == text && v.members[0..] == v.members;
      while i < |v.members|
        invariant i <= |v.members| && depth == old(depth) && Limit() == old(Limit())
        invariant buffer == old(buffer) || fresh(buffer)
        invariant Has(base, text + done)
        invariant all == done + PrintMembers(v.members[i..], format, depth)
      {
        var last := i + 1 == |v.members|;
        ghost var printed := MemberText(v.members[i], last, format, depth);
        MembersText(v.members, i, format, depth);
        ok := PrintMember(v.members[i], last, base, text + done);
        if !ok {
          return;
        }
        assert text + done + printed == text + (done + printed);
        done := done + printed;
        i := i + 1;
      }
      NoMembersText(format, depth);
      assert v.members[i..] == [] && all == done;
      ok := true;
    }

    method PrintMember(m: Member, last: bool, ghost base: bytes, ghost text: bytes) returns (ok: bool)
      requires Has(base, text) && 0 !in m.key && WellFormed(m.value)
      modifies this, buffer
      ensures ok <==> old(Fits(|MemberText(m, last, format, depth)|))
      ensures ok ==> Has(base, text + old(MemberText(m, last, format, depth)))
      ensures ok ==> buffer == old(buffer) || fresh(buffer)
      ensures Limit() == old(Limit()) && (ok ==> depth == old(depth))
      decreases m, 0
    {
      hide Print, WellFormed, Has, KeyText, MemberEnd;
      Standing(base, text);
      ghost var key, value := KeyText(m.key, format, depth), Print(m.value, format, depth);
      var end := MemberEnd(last, format);
      ok := PrintKey(m.key, base, text);
      if !ok {
        return;
      }
      Standing(base, text + key);
      ok := PrintItem(m.value, base, text + key);
      if !ok {
        return;
      }
      Standing(base, text + key + value);
      ok := Put(end, |end| + 1, true, base, text + key + value);
      assert text + key + value + end == text + (key + value + end);
    }

    // Indentation, key and colon.
    method PrintKey(key: bytes, ghost base: bytes, ghost text: bytes) returns (ok: bool)
      requires Has(base, text) && 0 !in key
      modifies this, buffer
      ensures ok ==> Has(base, text + old(KeyText(key, format, depth)))
      ensures !ok ==> old(offset) + old(|KeyText(key, format, depth)|) + 1 > old(Limit())
      ensures ok ==> buffer == old(buffer) || fresh(buffer)
      ensures Limit() == old(Limit()) && depth == old(depth)
    {
      hide Quoted, NoNul, Has, Holds, KeyText, IfFormatted, Tabs;
      Standing(base, text);
      KeyPieces(text, key, format, depth);
      var tabs, colon := IfFormatted(format, Tabs(depth)), [COLON] + IfFormatted(format, [TAB]);
      if format {
        ok := Put(tabs, depth, false, base, text);
        if !ok {
          return;
        }
      }
      Standing(base, text + tabs);
      ok := PrintString(key);
      if !ok {
        return;
      }
      QuotedNoNul(key);
      Advance(base + (text + tabs), Quoted(key));
      Joined(base, text + tabs, Quoted(key));
      Standing(base, text + tabs + Quoted(key));
      ok := Put(colon, |colon|, false, base, text + tabs + Quoted(key));
    }

    lemma Standing(base: bytes, p: bytes)
      requires Has(base, p)
      ensures Valid() && offset == |base| + |p| && buffer[..offset] == base + p
    {
    }

    // print_value followed by update_offset.
    method PrintItem(v: Value, ghost base: bytes, ghost text: bytes) returns (ok: bool)
      requires Has(base, text) && WellFormed(v)
      modifies this, buffer
      ensures ok <==> old(Fits(|Print(v, format, depth)|))
      ensures ok ==> Has(base, text + old(Print(v, format, depth)))
      ensures ok ==> buffer == old(buffer) || fresh(buffer)
      ensures Limit() == old(Limit()) && (ok ==> depth == old(depth))
      decreases v, 3
    {
      hide Print, Has, Holds, NoNul;
      Standing(base, text);
      ok := PrintValue(v);
      if ok {
        PrintNoNul(v, format, depth);
        Advance(base + text, Print(v, format, depth));
        Joined(base, text, Print(v, format, depth));
      }
    }
  }

  lemma KeyPieces(text: bytes, key: bytes, format: bool, depth: nat)
    ensures var tabs, colon := IfFormatted(format, Tabs(depth)), [COLON] + IfFormatted(format, [TAB]);
            && text + tabs + Quoted(key) + colon == text + KeyText(key, format, depth)
            && |KeyText(key, format, depth)| == |tabs| + |Quoted(key)| + |colon| && |colon| > 0
            && (!format ==> text + tabs == text && |tabs| == 0) && (format ==> |tabs| == depth)
  {
    hide Quoted;
  }

  lemma QuotedPieces(base: bytes, t: bytes)
    ensures base + [QUOTE] + Escape(t) + [QUOTE, 0] == base + Quoted(t) + [0]
    ensures base + ([QUOTE] + Escape(t) + [QUOTE, 0]) == base + Quoted(t) + [0]
    ensures |Quoted(t)| == |Escape(t)| + 2
  {
    hide Escape;
  }

  lemma UnicodeEscape(base: bytes, c: byte)
    requires c < 32 && ShortEscape(c).None?
    ensures base + [BACKSLASH] + [LETTER_U, 48, 48, HexDigit(c / 16), HexDigit(c % 16)] == base + EscapeByte(c)
  {
  }

  lemma EmptyEscape()
    ensures Escape([]) == []
  {
  }

  lemma EscapeStep(t: bytes, i: nat)
    requires i < |t|
    ensures Escape(t[..i + 1]) == Escape(t[..i]) + EscapeByte(t[i])
    ensures |Escape(t[..i + 1])| <= |Escape(t)|
  {
    assert t[..i] + [t[i]] == t[..i + 1] && t[..i + 1] + t[i + 1..] == t;
    EscapeConcat(t[..i], [t[i]]);
    EscapeConcat(t[..i + 1], t[i + 1..]);
    assert Escape([t[i]]) == EscapeByte(t[i]);
  }

  lemma ItemsWellFormed(v: Value)
    requires v.Array? && WellFormed(v)
    ensures forall i :: 0 <= i < |v.items| ==> WellFormed(v.items[i])
  {
  }

  // An element and the separator behind it, if it is not the last one.
  function ElementText(item: Value, last: bool, format: bool, depth: nat): bytes {
    Print(item, format, depth) + (if last then [] else ItemSeparator(format))
  }

  lemma ItemsText(items: seq<Value>, i: nat, format: bool, depth: nat)
    requires i < |items|
    ensures PrintItems(items[i..], format, depth)
            == ElementText(items[i], i + 1 == |items|, format, depth) + PrintItems(items[i + 1..], format, depth)
  {
    assert items[i..][1..] == items[i + 1..];
    hide Print, ItemSeparator;
  }

  lemma NoItemsText(format: bool, depth: nat)
    ensures PrintItems([], format, depth) == []
  {
  }

  // A member with its indentation and the end of its line.
  function MemberText(m: Member, last: bool, format: bool, depth: nat): bytes {
    KeyText(m.key, format, depth) + Print(m.value, format, depth) + MemberEnd(last, format)
  }

  lemma MembersText(ms: seq<Member>, i: nat, format: bool, depth: nat)
    requires i < |ms|
    ensures PrintMembers(ms[i..], format, depth)
            == MemberText(ms[i], i + 1 == |ms|, format, depth) + PrintMembers(ms[i + 1..], format, depth)
  {
    assert ms[i..][1..] == ms[i + 1..];
  }

  lemma NoMembersText(format: bool, depth: nat)
    ensures PrintMembers([], format, depth) == []
  {
  }

  lemma ObjectText(v: Value, format: bool, depth: nat)
    requires v.Object?
    ensures Print(v, format, depth)
            == ([OPEN_BRACE] + IfFormatted(format, [NEWLINE])) + PrintMembers(v.members, format, depth + 1)
               + (IfFormatted(format, Tabs(depth)) + [CLOSE_BRACE])
  {
  }

  lemma ArrayText(v: Value, format: bool, depth: nat)
    requires v.Array?
    ensures Print(v, format, depth) == [OPEN_BRACKET] + PrintItems(v.items, format, depth + 1) + [CLOSE_BRACKET]
  {
  }

  // cJSON_Print and cJSON_PrintUnformatted: a 256-byte buffer that grows, then the text up to the offset.
  // The only failure, allocation aside, is a text that does not leave two spare bytes below INT_MAX.
  method PrintText(v: Value, format: bool) returns (text: Option<bytes>)
    requires WellFormed(v)
    ensures text == if |Print(v, format, 0)| + 2 <= INT_MAX then Some(Print(v, format, 0)) else None
  {
    hide Print, WellFormed;
    var p := new PrintBuffer(256, false, format);
    var ok := p.PrintItem(v, [], []);
    if !ok {
      return None;
    }
    text := Some(p.buffer[..p.offset]);
    assert [] + ([] + Print(v, format, 0)) == Print(v, format, 0);
  }

  lemma {:induction false} CStringOf(s: bytes, p: bytes)
    requires NoNul(p) && |p| < |s| && s[..|p| + 1] == p + [0]
    ensures CString(s) == p
    decreases |p|
  {
    assert s[0] == (p + [0])[0];
    if p != [] {
      assert s[1..][..|p|] == s[..|p| + 1][1..] == p[1..] + [0];
      CStringOf(s[1..], p[1..]);
    }
  }

  // cJSON_PrintPreallocated: the caller's buffer is never moved, and must have two bytes more than the text.
  method PrintPreallocated(v: Value, size: nat, format: bool) returns (text: Option<bytes>)
    requires WellFormed(v) && size <= INT_MAX
    ensures text.Some? <==> |Print(v, format, 0)| + 2 <= size
    ensures text.Some? ==> CString(text.value) == Print(v, format, 0)
  {
    hide Print, WellFormed, NoNul;
    var p := new PrintBuffer(size, true, format);
    var ok := p.PrintValue(v);
    if !ok {
      return None;
    }
    PrintNoNul(v, format, 0);
    ghost var printed := Print(v, format, 0);
    assert [] + printed + [0] == printed + [0];
    CStringOf(p.buffer[..], printed);
    text := Some(p.buffer[..]);
  }
}
