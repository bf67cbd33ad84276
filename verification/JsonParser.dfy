// The recursive-descent parser: a read-only buffer with an offset and a depth counter that are updated in place.
module JsonParser {
  import opened Bytes
  import opened JsonValue
  import opened JsonNumber
  import opened JsonString
  import opened JsonText

  class ParseBuffer {
    const content: bytes
    const strtod: Strtod
    var offset: nat
    var depth: nat

    constructor (content: bytes, strtod: Strtod)
      ensures this.content == content && this.strtod == strtod && offset == 0 && depth == 0
    {
      this.content, this.strtod := content, strtod;
      offset, depth := 0, 0;
    }

    predicate Valid()
      reads this
    {
      offset <= |content|
    }

    predicate CanAccess(index: nat)
      reads this
    {
      offset + index < |content|
    }

    // What a parsing method reports and where it leaves the buffer, against what the text says.
    ghost predicate Agrees<T>(expected: Parsed<T>, result: Option<T>, depthBefore: nat)
      reads this
    {
      && (expected.Ok? <==> result.Some?)
      && (expected.Ok? ==> result.value == expected.value && offset == expected.next && depth == depthBefore)
    }

    // The same for a list that is read up to its closing bracket or brace.
    ghost predicate ListAgrees<T>(expected: Parsed<seq<T>>, result: Option<seq<T>>, depthBefore: nat)
      reads this
    {
      && (expected.Ok? <==> result.Some?)
      && (expected.Ok? ==>
          CanAccess(0) && result.value == expected.value && offset + 1 == expected.next && depth == depthBefore)
    }

    method SkipWhitespace()
      requires Valid()
      modifies `offset
      ensures offset == Skip(content, old(offset))
    {
      if !CanAccess(0) {
        return;
      }
      while CanAccess(0) && content[offset] <= 32
        invariant old(offset) <= offset <= |content|
        invariant SkipAll(content, old(offset)) == SkipAll(content, offset)
        decreases |content| - offset
      {
        offset := offset + 1;
      }
      if offset == |content| {
        offset := offset - 1;
      }
    }

    // The bytes from the offset are p.
    predicate Reads(p: bytes)
      reads this
    {
      At(content, offset, p)
    }

    method ParseValue() returns (item: Option<Value>)
      requires Valid()
      modifies this
      ensures Valid() && Agrees(ParseValueAt(content, old(offset), old(depth), strtod), item, old(depth))
      decreases |content| - offset, 2
    {
      hide ParseStringAt, ParseNumberAt, ParseArrayAt, ParseObjectAt, Conforms;
      if Reads(NULL_TEXT) {
        offset := offset + 4;
        return Some(Null);
      }
      if Reads(FALSE_TEXT) {
        offset := offset + 5;
        return Some(False);
      }
      if Reads(TRUE_TEXT) {
        offset := offset + 4;
        return Some(True);
      }
      if CanAccess(0) && content[offset] == QUOTE {
        var text := ParseString();
        return if text.Some? then Some(String(text.value)) else None;
      }
      if CanAccess(0) && (content[offset] == MINUS || IsDigit(content[offset])) {
        item := ParseNumber();
        return;
      }
      if CanAccess(0) && content[offset] == OPEN_BRACKET {
        item := ParseArray();
        return;
      }
      if CanAccess(0) && content[offset] == OPEN_BRACE {
        item := ParseObject();
        return;
      }
      item := None;
    }

    method ParseNumber() returns (item: Option<Value>)
      requires Valid()
      modifies `offset
      ensures Valid() && Agrees(ParseNumberAt(content, old(offset), strtod), item, old(depth))
    {
      var i := 0;
      while CanAccess(i) && NumberByte(content[offset + i])
        invariant offset + i <= |content|
        invariant NumberEnd(content, offset) == NumberEnd(content, offset + i)
        decreases |content| - i
      {
        i := i + 1;
      }
      var converted := strtod(content[offset..offset + i]);
      if converted.None? {
        return None;
      }
      item := Some(Number(Saturate(converted.value.whole)));
      offset := offset + converted.value.used;
    }

    // The output buffer holds the unescaped bytes and a terminator; its size comes from the first pass.
    method ParseString() returns (text: Option<bytes>)
      requires Valid() && CanAccess(0)
      modifies `offset
      ensures Valid() && Agrees(ParseStringAt(content, old(offset)), text, old(depth))
    {
      hide Unescape, ScanEnd, Units, CString;
      var start := offset + 1;
      if content[offset] != QUOTE {
        offset := start;
        return None;
      }
      var end, skipped := FirstPass(content, start);
      if end.None? {
        offset := start;
        return None;
      }
      var allocation := end.value - offset - skipped;
      var output := new byte[allocation + 1];
      var ok, length, stop := SecondPass(content, start, end.value, output);
      if !ok {
        offset := stop;
        return None;
      }
      text := Some(CString(output[..length]));
      assert output[..length] == output[..length + 1][..length];
      offset := end.value + 1;
    }

    method ParseArray() returns (item: Option<Value>)
      requires Valid() && CanAccess(0) && content[offset] == OPEN_BRACKET
      modifies this
      ensures Valid() && Agrees(ParseArrayAt(content, old(offset), old(depth), strtod), item, old(depth))
      decreases |content| - offset, 1
    {
      hide ParseItemsAt, Skip, Conforms;
      if depth >= NESTING_LIMIT {
        return None;
      }
      depth := depth + 1;
      offset := offset + 1;
      SkipWhitespace();
      if CanAccess(0) && content[offset] == CLOSE_BRACKET {
        depth := depth - 1;
        offset := offset + 1;
        return Some(Array([]));
      }
      if !CanAccess(0) {
        offset := offset - 1;
        return None;
      }
      var items := ParseItems();
      if items.None? {
        return None;
      }
      depth := depth - 1;
      offset := offset + 1;
      item := Some(Array(items.value));
    }

    // The element loop of parse_array, up to the closing bracket.
    method ParseItems() returns (items: Option<seq<Value>>)
      requires Valid() && CanAccess(0) && offset > 0
      modifies this
      ensures Valid() && ListAgrees(ParseItemsAt(content, old(offset), old(depth), strtod), items, old(depth))
      decreases |content| - offset, 4
    {
      hide ParseItemsAt, ParseValueAt, Skip, Conforms, PrependTo;
      ghost var first := offset;
      PrependNothing(ParseItemsAt(content, first, depth, strtod));
      offset := offset - 1;
      var done, more := [], true;
      while more
        invariant first - 1 <= offset <= |content| && (more ==> offset < |content|) && depth == old(depth)
        invariant ParseItemsAt(content, first, depth, strtod)
                  == if more then PrependTo(done, ParseItemsAt(content, offset + 1, depth, strtod))
                     else if ByteAt(content, offset, CLOSE_BRACKET) then Ok(done, offset + 1)
                     else Fail
        decreases more, |content| - offset
      {
        ItemsBehind(content, done, offset + 1, depth, strtod);
        var v := ParseElement();
        if v.None? {
          return None;
        }
        SkipWhitespace();
        more := CanAccess(0) && content[offset] == COMMA;
        done := done + [v.value];
      }
      items := if CanAccess(0) && content[offset] == CLOSE_BRACKET then Some(done) else None;
    }

    // One element, starting from the byte in front of it.
    method ParseElement() returns (item: Option<Value>)
      requires Valid() && CanAccess(0)
      modifies this
      ensures Valid()
      ensures Agrees(ParseValueAt(content, Skip(content, old(offset) + 1), old(depth), strtod), item, old(depth))
      decreases |content| - offset - 1, 3
    {
      offset := offset + 1;
      SkipWhitespace();
      item := ParseValue();
    }

    method ParseObject() returns (item: Option<Value>)
      requires Valid() && CanAccess(0) && content[offset] == OPEN_BRACE
      modifies this
      ensures Valid() && Agrees(ParseObjectAt(content, old(offset), old(depth), strtod), item, old(depth))
      decreases |content| - offset, 1
    {
      hide ParseMembersAt, Skip, Conforms;
      if depth >= NESTING_LIMIT {
        return None;
      }
      depth := depth + 1;
      offset := offset + 1;
      SkipWhitespace();
      if CanAccess(0) && content[offset] == CLOSE_BRACE {
        depth := depth - 1;
        offset := offset + 1;
        return Some(Object([]));
      }
      if !CanAccess(0) {
        offset := offset - 1;
        return None;
      }
      var members := ParseMembers();
      if members.None? {
        return None;
      }
      depth := depth - 1;
      offset := offset + 1;
      item := Some(Object(members.value));
    }

    // The member loop of parse_object, up to the closing brace.
    method ParseMembers() returns (members: Option<seq<Member>>)
      requires Valid() && CanAccess(0) && offset > 0
      modifies this
      ensures Valid() && ListAgrees(ParseMembersAt(content, old(offset), old(depth), strtod), members, old(depth))
      decreases |content| - offset, 4
    {
      hide ParseMembersAt, ParseMemberAt, Skip, Conforms, PrependTo;
      ghost var first := offset;
      PrependNothing(ParseMembersAt(content, first, depth, strtod));
      offset := offset - 1;
      var done, more := [], true;
      while more
        invariant first - 1 <= offset <= |content| && (more ==> offset < |content|) && depth == old(depth)
        invariant ParseMembersAt(content, first, depth, strtod)
                  == if more then PrependTo(done, ParseMembersAt(content, offset + 1, depth, strtod))
                     else if ByteAt(content, offset, CLOSE_BRACE) then Ok(done, offset + 1)
                     else Fail
        decreases more, |content| - offset
      {
        MembersBehind(content, done, offset + 1, depth, strtod);
        var m := ParseMember();
        if m.None? {
          return None;
        }
        SkipWhitespace();
        more := CanAccess(0) && content[offset] == COMMA;
        done := done + [m.value];
      }
      members := if CanAccess(0) && content[offset] == CLOSE_BRACE then Some(done) else None;
    }

    // One member, starting from the byte in front of its key.
    method ParseMember() returns (member: Option<Member>)
      requires Valid() && CanAccess(0)
      modifies this
      ensures Valid() && Agrees(ParseMemberAt(content, old(offset) + 1, old(depth), strtod), member, old(depth))
      decreases |content| - offset - 1, 3
    {
      hide ParseStringAt, ParseValueAt, Skip, Conforms;
      if !CanAccess(1) {
        return None;
      }
      offset := offset + 1;
      SkipWhitespace();
      var key := ParseString();
      if key.None? {
        return None;
      }
      SkipWhitespace();
      if !CanAccess(0) || content[offset] != COLON {
        return None;
      }
      offset := offset + 1;
      SkipWhitespace();
      var v := ParseValue();
      if v.None? {
        return None;
      }
      member := Some(Member(key.value, v.value));
    }
  }

  // cJSON_Parse: the parsed buffer includes the terminator of the C string.
  method Parse(text: bytes, strtod: Strtod) returns (item: Option<Value>)
    requires NoNul(text)
    ensures item == ParseText(text, strtod)
  {
    hide ParseValueAt, Skip, Conforms;
    var buffer := new ParseBuffer(text + [0], strtod);
    if buffer.CanAccess(4) && buffer.content[..3] == [0xEF, 0xBB, 0xBF] {
      buffer.offset := 3;
    }
    buffer.SkipWhitespace();
    item := buffer.ParseValue();
  }
}
