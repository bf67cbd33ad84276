// The text a tree prints to and the tree a text parses to, as functions on byte sequences.
module JsonText {
  import opened Bytes
  import opened JsonValue
  import opened JsonNumber
  import opened JsonString
  import opened Utf16

  const COMMA: byte := 44
  const COLON: byte := 58
  const SPACE: byte := 32
  const TAB: byte := 9
  const NEWLINE: byte := 10
  const OPEN_BRACKET: byte := 91
  const CLOSE_BRACKET: byte := 93
  const OPEN_BRACE: byte := 123
  const CLOSE_BRACE: byte := 125

  const NULL_TEXT: bytes := [110, 117, 108, 108]
  const TRUE_TEXT: bytes := [116, 114, 117, 101]
  const FALSE_TEXT: bytes := [102, 97, 108, 115, 101]

  // The tokens of sections 2 and 3 of RFC 8259, and the layout characters of formatted output.
  lemma Tokens()
    ensures NULL_TEXT == Ascii("null") && TRUE_TEXT == Ascii("true") && FALSE_TEXT == Ascii("false")
    ensures Ascii("[]{}") == [OPEN_BRACKET, CLOSE_BRACKET, OPEN_BRACE, CLOSE_BRACE]
    ensures Ascii(",:\"\\ \t\n") == [COMMA, COLON, QUOTE, BACKSLASH, SPACE, TAB, NEWLINE]
  {
  }

  // ----- Printing -----

  function Tabs(n: nat): (r: bytes)
    ensures |r| == n
  {
    seq(n, _ => TAB)
  }

  // Text that is only there in formatted output.
  function IfFormatted(format: bool, p: bytes): bytes {
    if format then p else []
  }

  // depth is the number of enclosing arrays and objects; it only shows in the indentation of object members.
  function Print(v: Value, format: bool, depth: nat): (r: bytes)
    ensures |r| > 0
    decreases v, 0
  {
    match v
    case Null => NULL_TEXT
    case False => FALSE_TEXT
    case True => TRUE_TEXT
    case Number(n) => PrintInt(n)
    case String(t) => Quoted(t)
    case Array(items) => [OPEN_BRACKET] + PrintItems(items, format, depth + 1) + [CLOSE_BRACKET]
    case Object(ms) =>
      [OPEN_BRACE] + IfFormatted(format, [NEWLINE]) + PrintMembers(ms, format, depth + 1)
      + IfFormatted(format, Tabs(depth)) + [CLOSE_BRACE]
  }

  function ItemSeparator(format: bool): bytes {
    [COMMA] + IfFormatted(format, [SPACE])
  }

  function PrintItems(items: seq<Value>, format: bool, depth: nat): bytes
    decreases items, 1
  {
    if items == [] then []
    else if |items| == 1 then Print(items[0], format, depth)
    else Print(items[0], format, depth) + ItemSeparator(format) + PrintItems(items[1..], format, depth)
  }

  function KeyText(key: bytes, format: bool, depth: nat): bytes {
    IfFormatted(format, Tabs(depth)) + Quoted(key) + [COLON] + IfFormatted(format, [TAB])
  }

  function MemberEnd(last: bool, format: bool): bytes {
    (if last then [] else [COMMA]) + IfFormatted(format, [NEWLINE])
  }

  function PrintMembers(ms: seq<Member>, format: bool, depth: nat): bytes
    decreases ms, 1
  {
    if ms == [] then []
    else
      KeyText(ms[0].key, format, depth) + Print(ms[0].value, format, depth) + MemberEnd(|ms| == 1, format)
      + PrintMembers(ms[1..], format, depth)
  }

  // ----- Parsing -----

  datatype Parsed<+T> = Fail | Ok(value: T, next: nat)

  // First byte from i on that is not white space (a byte above 32).
  function SkipAll(s: bytes, i: nat): (e: nat)
    requires i <= |s|
    ensures i <= e <= |s|
    ensures e < |s| ==> s[e] > 32
    ensures forall k :: i <= k < e ==> s[k] <= 32
    decreases |s| - i
  {
    if i == |s| || s[i] > 32 then i else SkipAll(s, i + 1)
  }

  // Skipping that reaches the end of the buffer steps back onto its last byte.
  function Skip(s: bytes, i: nat): (e: nat)
    requires i <= |s|
    ensures i <= e <= |s| && (i < |s| ==> e < |s|)
  {
    if i == |s| then i
    else var e := SkipAll(s, i); if e == |s| then e - 1 else e
  }

  predicate ByteAt(s: bytes, i: nat, b: byte) {
    i < |s| && s[i] == b
  }

  function ParseNumberAt(s: bytes, off: nat, strtod: Strtod): (r: Parsed<Value>)
    requires off <= |s|
    ensures r.Ok? ==> off < r.next <= |s|
  {
    var token := s[off..NumberEnd(s, off)];
    match strtod(token)
    case None => Fail
    case Some(c) => Ok(Number(Saturate(c.whole)), off + c.used)
  }

  // The unescaped bytes, read as a C string, and the position after the closing quote.
  function ParseStringAt(s: bytes, off: nat): (r: Parsed<bytes>)
    requires off < |s|
    ensures r.Ok? ==> off < r.next <= |s|
  {
    if s[off] != QUOTE then Fail
    else
      match ScanEnd(s, off + 1)
      case None => Fail
      case Some(e) =>
        match Unescape(s, off + 1, e)
        case None => Fail
        case Some(t) => Ok(CString(t), e + 1)
  }

  // Parsing starts at depth 0; a negative depth stands for a higher nesting limit.
  function ParseValueAt(s: bytes, off: nat, depth: int, strtod: Strtod): (r: Parsed<Value>)
    requires off <= |s|
    ensures r.Ok? ==> off < r.next <= |s|
    decreases |s| - off, 1
  {
    if At(s, off, NULL_TEXT) then Ok(Null, off + 4)
    else if At(s, off, FALSE_TEXT) then Ok(False, off + 5)
    else if At(s, off, TRUE_TEXT) then Ok(True, off + 4)
    else if off == |s| then Fail
    else if s[off] == QUOTE then
      match ParseStringAt(s, off)
      case Fail => Fail
      case Ok(t, next) => Ok(String(t), next)
    else if s[off] == MINUS || IsDigit(s[off]) then ParseNumberAt(s, off, strtod)
    else if s[off] == OPEN_BRACKET then ParseArrayAt(s, off, depth, strtod)
    else if s[off] == OPEN_BRACE then ParseObjectAt(s, off, depth, strtod)
    else Fail
  }

  function ParseArrayAt(s: bytes, off: nat, depth: int, strtod: Strtod): (r: Parsed<Value>)
    requires off < |s|
    ensures r.Ok? ==> off < r.next <= |s|
    decreases |s| - off, 0
  {
    if depth >= NESTING_LIMIT then Fail
    else
      var p := Skip(s, off + 1);
      if p == |s| then Fail
      else if s[p] == CLOSE_BRACKET then Ok(Array([]), p + 1)
      else
        match ParseItemsAt(s, p, depth + 1, strtod)
        case Fail => Fail
        case Ok(items, next) => Ok(Array(items), next)
  }

  // One or more items, up to and including the closing bracket.
  function ParseItemsAt(s: bytes, p: nat, depth: int, strtod: Strtod): (r: Parsed<seq<Value>>)
    requires p <= |s|
    ensures r.Ok? ==> p < r.next <= |s|
    decreases |s| - p, 2
  {
    match ParseValueAt(s, Skip(s, p), depth, strtod)
    case Fail => Fail
    case Ok(v, next) =>
      var q := Skip(s, next);
      if ByteAt(s, q, COMMA) then PrependTo([v], ParseItemsAt(s, q + 1, depth, strtod))
      else if ByteAt(s, q, CLOSE_BRACKET) then Ok([v], q + 1)
      else Fail
  }

  function PrependTo<T>(first: seq<T>, rest: Parsed<seq<T>>): (r: Parsed<seq<T>>)
    ensures r.Ok? <==> rest.Ok?
    ensures r.Ok? ==> r == Ok(first + rest.value, rest.next)
  {
    match rest
    case Fail => Fail
    case Ok(more, next) => Ok(first + more, next)
  }

  lemma PrependNothing<T>(rest: Parsed<seq<T>>)
    ensures PrependTo([], rest) == rest
  {
    if rest.Ok? {
      assert [] + rest.value == rest.value;
    }
  }

  lemma PrependTwice<T>(a: seq<T>, b: seq<T>, rest: Parsed<seq<T>>)
    ensures PrependTo(a, PrependTo(b, rest)) == PrependTo(a + b, rest)
  {
    if rest.Ok? {
      assert a + (b + rest.value) == a + b + rest.value;
    }
  }

  // One more item behind those that have been read.
  lemma ItemsBehind(s: bytes, done: seq<Value>, p: nat, depth: int, strtod: Strtod)
    requires p <= |s|
    ensures PrependTo(done, ParseItemsAt(s, p, depth, strtod))
            == match ParseValueAt(s, Skip(s, p), depth, strtod)
               case Fail => Fail
               case Ok(v, next) =>
                 var q := Skip(s, next);
                 if ByteAt(s, q, COMMA) then PrependTo(done + [v], ParseItemsAt(s, q + 1, depth, strtod))
                 else if ByteAt(s, q, CLOSE_BRACKET) then Ok(done + [v], q + 1)
                 else Fail
  {
    hide ParseValueAt, Skip, Conforms;
    if ParseValueAt(s, Skip(s, p), depth, strtod).Ok? {
      var v, q := ParseValueAt(s, Skip(s, p), depth, strtod).value,
          Skip(s, ParseValueAt(s, Skip(s, p), depth, strtod).next);
      if ByteAt(s, q, COMMA) {
        PrependTwice(done, [v], ParseItemsAt(s, q + 1, depth, strtod));
      }
    }
  }

  function ParseObjectAt(s: bytes, off: nat, depth: int, strtod: Strtod): (r: Parsed<Value>)
    requires off < |s|
    ensures r.Ok? ==> off < r.next <= |s|
    decreases |s| - off, 0
  {
    if depth >= NESTING_LIMIT then Fail
    else
      var p := Skip(s, off + 1);
      if p == |s| then Fail
      else if s[p] == CLOSE_BRACE then Ok(Object([]), p + 1)
      else
        match ParseMembersAt(s, p, depth + 1, strtod)
        case Fail => Fail
        case Ok(ms, next) => Ok(Object(ms), next)
  }

  // One or more members, up to and including the closing brace.
  function ParseMembersAt(s: bytes, p: nat, depth: int, strtod: Strtod): (r: Parsed<seq<Member>>)
    requires p <= |s|
    ensures r.Ok? ==> p < r.next <= |s|
    decreases |s| - p, 3
  {
    match ParseMemberAt(s, p, depth, strtod)
    case Fail => Fail
    case Ok(m, next) =>
      var q := Skip(s, next);
      if ByteAt(s, q, COMMA) then PrependTo([m], ParseMembersAt(s, q + 1, depth, strtod))
      else if ByteAt(s, q, CLOSE_BRACE) then Ok([m], q + 1)
      else Fail
  }

  // One more member behind those that have been read.
  lemma MembersBehind(s: bytes, done: seq<Member>, p: nat, depth: int, strtod: Strtod)
    requires p <= |s|
    ensures PrependTo(done, ParseMembersAt(s, p, depth, strtod))
            == match ParseMemberAt(s, p, depth, strtod)
               case Fail => Fail
               case Ok(m, next) =>
                 var q := Skip(s, next);
                 if ByteAt(s, q, COMMA) then PrependTo(done + [m], ParseMembersAt(s, q + 1, depth, strtod))
                 else if ByteAt(s, q, CLOSE_BRACE) then Ok(done + [m], q + 1)
                 else Fail
  {
    hide ParseMemberAt, Skip, Conforms;
    if ParseMemberAt(s, p, depth, strtod).Ok? {
      var m, q := ParseMemberAt(s, p, depth, strtod).value, Skip(s, ParseMemberAt(s, p, depth, strtod).next);
      if ByteAt(s, q, COMMA) {
        PrependTwice(done, [m], ParseMembersAt(s, q + 1, depth, strtod));
      }
    }
  }

  function ParseMemberAt(s: bytes, p: nat, depth: int, strtod: Strtod): (r: Parsed<Member>)
    requires p <= |s|
    ensures r.Ok? ==> p < r.next <= |s|
    decreases |s| - p, 2
  {
    if p == |s| then Fail
    else
      match ParseStringAt(s, Skip(s, p))
      case Fail => Fail
      case Ok(key, next) =>
        var c := Skip(s, next);
        if !ByteAt(s, c, COLON) then Fail
        else
          match ParseValueAt(s, Skip(s, c + 1), depth, strtod)
          case Fail => Fail
          case Ok(v, end) => Ok(Member(key, v), end)
  }

  // cJSON_Parse: the buffer is the C string with its terminator; a byte order mark and white space are skipped,
  // and whatever follows the first value is ignored.
  function ParseText(text: bytes, strtod: Strtod): Option<Value>
    requires NoNul(text)
  {
    var s := text + [0];
    var start := if |s| > 4 && s[..3] == [0xEF, 0xBB, 0xBF] then 3 else 0;
    match ParseValueAt(s, Skip(s, start), 0, strtod)
    case Fail => None
    case Ok(v, _) => Some(v)
  }
}
