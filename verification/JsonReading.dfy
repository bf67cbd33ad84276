// Whatever the parser accepts is a grammatical text with the value returned; and both directions for whole texts.
module JsonReading {
  import opened Bytes
  import opened JsonValue
  import opened JsonNumber
  import Utf16
  import opened JsonString
  import opened StringGrammar
  import opened JsonText
  import opened JsonGrammar

  // t is what stands in s from off up to the position where parsing stopped, and it means what was returned.
  ghost predicate Explains(s: bytes, off: nat, r: Parsed<Value>, t: Syntax, depth: int, strtod: Strtod) {
    && r.Ok? && off <= r.next <= |s| && s[off..r.next] == Write(t)
    && Grammatical(t, strtod) && Meaning(t, strtod) == r.value && depth + Nesting(r.value) <= NESTING_LIMIT
  }

  lemma {:induction false} SkipAllBlank(s: bytes, i: nat)
    requires i <= |s|
    ensures Blank(s[i..SkipAll(s, i)])
    decreases |s| - i
  {
    if i < |s| && s[i] <= 32 {
      SkipAllBlank(s, i + 1);
      assert s[i..SkipAll(s, i)] == [s[i]] + s[i + 1..SkipAll(s, i + 1)];
    }
  }

  // Only white space is skipped, also when skipping steps back from the end of the buffer.
  lemma SkipBlank(s: bytes, i: nat)
    requires i <= |s|
    ensures Blank(s[i..Skip(s, i)])
  {
    SkipAllBlank(s, i);
    forall k | 0 <= k < |s[i..Skip(s, i)]| ensures s[i..Skip(s, i)][k] <= 32 {
      assert s[i..Skip(s, i)][k] == s[i..SkipAll(s, i)][k];
    }
  }

  lemma ThreeParts(s: bytes, a: nat, b: nat, c: nat, d: nat)
    requires a <= b <= c <= d <= |s|
    ensures s[a..d] == s[a..b] + (s[b..c] + s[c..d])
  {
  }

  lemma TwoParts(s: bytes, a: nat, b: nat, c: nat)
    requires a <= b <= c <= |s|
    ensures s[a..c] == s[a..b] + s[b..c]
  {
  }

  lemma StringRead(s: bytes, off: nat)
    requires off < |s| && ParseStringAt(s, off).Ok?
    ensures var r := ParseStringAt(s, off); var body := s[off + 1..r.next - 1];
            off + 2 <= r.next && s[off..r.next] == InQuotes(body) && Readable(body) && TextOf(body) == r.value
  {
    hide ScanEnd, Unescape;
    var e := ScanEnd(s, off + 1).value;
    var body := s[off + 1..e];
    assert s[off + 1..e + 1] == body + [QUOTE];
    assert s[off..e + 1] == [QUOTE] + s[off + 1..e + 1];
    ReadingIsLocal(s, off + 1, body);
  }

  lemma Prefix(s: bytes, a: nat, b: nat, n: nat)
    requires a <= b <= |s| && n <= b - a
    ensures s[a..a + n] == s[a..b][..n]
  {
  }

  lemma NumberRead(s: bytes, off: nat, depth: int, strtod: Strtod)
    requires off < |s| && (s[off] == MINUS || IsDigit(s[off])) && ParseNumberAt(s, off, strtod).Ok?
        && depth <= NESTING_LIMIT
    ensures var r := ParseNumberAt(s, off, strtod); Explains(s, off, r, Numeral(s[off..r.next]), depth, strtod)
  {
    hide Conforms;
    var end := NumberEnd(s, off);
    var run := s[off..end];
    UsedAlone(strtod, run);
    var token := s[off..off + strtod(run).value.used];
    Prefix(s, off, end, |token|);
    forall k | 0 <= k < |token| ensures NumberByte(token[k]) {
      assert token[k] == s[off + k];
    }
  }

  lemma WordRead(s: bytes, off: nat, v: Value, depth: int, strtod: Strtod)
    requires (v.Null? || v.False? || v.True?) && At(s, off, WordText(v)) && depth <= NESTING_LIMIT
    ensures Explains(s, off, Ok(v, off + |WordText(v)|), Word(v), depth, strtod)
  {
  }

  // A tree for every accepted value.
  lemma {:induction false} ValueRead(s: bytes, off: nat, depth: int, strtod: Strtod) returns (t: Syntax)
    requires off <= |s| && depth <= NESTING_LIMIT && ParseValueAt(s, off, depth, strtod).Ok?
    ensures Explains(s, off, ParseValueAt(s, off, depth, strtod), t, depth, strtod)
    decreases |s| - off, 1
  {
    hide Conforms, Explains, ParseStringAt, ParseNumberAt, ParseArrayAt, ParseObjectAt;
    if At(s, off, NULL_TEXT) {
      t := Word(Null);
      WordRead(s, off, Null, depth, strtod);
    } else if At(s, off, FALSE_TEXT) {
      t := Word(False);
      WordRead(s, off, False, depth, strtod);
    } else if At(s, off, TRUE_TEXT) {
      t := Word(True);
      WordRead(s, off, True, depth, strtod);
    } else if s[off] == QUOTE {
      LiteralRead(s, off, depth, strtod);
      t := Literal(s[off + 1..ParseStringAt(s, off).next - 1]);
    } else if s[off] == MINUS || IsDigit(s[off]) {
      t := Numeral(s[off..ParseNumberAt(s, off, strtod).next]);
      NumberRead(s, off, depth, strtod);
    } else if s[off] == OPEN_BRACKET {
      t := ArrayRead(s, off, depth, strtod);
    } else {
      t := ObjectRead(s, off, depth, strtod);
    }
  }

  lemma LiteralRead(s: bytes, off: nat, depth: int, strtod: Strtod)
    requires off < |s| && ParseStringAt(s, off).Ok? && depth <= NESTING_LIMIT
    ensures var r := ParseStringAt(s, off);
            off + 2 <= r.next
                && Explains(s, off, Ok(String(r.value), r.next), Literal(s[off + 1..r.next - 1]), depth, strtod)
  {
    hide ParseStringAt, Closed, Decodable, TextOf;
    StringRead(s, off);
  }

  lemma {:induction false} ArrayRead(s: bytes, off: nat, depth: int, strtod: Strtod) returns (t: Syntax)
    requires off < |s| && s[off] == OPEN_BRACKET && depth <= NESTING_LIMIT && ParseArrayAt(s, off, depth, strtod).Ok?
    ensures Explains(s, off, ParseArrayAt(s, off, depth, strtod), t, depth, strtod)
    decreases |s| - off, 0
  {
    hide Conforms, ParseItemsAt, Skip, Blank;
    var p := Skip(s, off + 1);
    SkipBlank(s, off + 1);
    var gap := s[off + 1..p];
    if s[p] == CLOSE_BRACKET {
      t := List(gap, []);
      NoElements(strtod);
      ListText(s, off, p, p + 1, []);
      ListOf(gap, [], strtod);
    } else {
      var es := ItemsRead(s, p, depth + 1, strtod);
      t := List(gap, es);
      ListOf(gap, es, strtod);
      ListText(s, off, p, ParseItemsAt(s, p, depth + 1, strtod).next, es);
    }
  }

  lemma ListOf(gap: bytes, es: seq<Element>, strtod: Strtod)
    requires Blank(gap) && DelimitedElements(es, strtod) && LegibleElements(es)
    ensures Grammatical(List(gap, es), strtod) && Meaning(List(gap, es), strtod) == Array(MeaningOfElements(es, strtod))
  {
  }

  lemma RecordOf(gap: bytes, es: seq<Entry>, strtod: Strtod)
    requires Blank(gap) && DelimitedEntries(es, strtod) && LegibleEntries(es)
    ensures Grammatical(Record(gap, es), strtod)
        && Meaning(Record(gap, es), strtod) == Object(MeaningOfEntries(es, strtod))
  {
  }

  lemma ListText(s: bytes, off: nat, p: nat, end: nat, es: seq<Element>)
    requires off < p <= end <= |s| && s[off] == OPEN_BRACKET && s[p..end] == WriteElements(es) + [CLOSE_BRACKET]
    ensures s[off..end] == Write(List(s[off + 1..p], es))
  {
    ThreeParts(s, off, off + 1, p, end);
    assert s[off..off + 1] == [OPEN_BRACKET];
    assert Write(List(s[off + 1..p], es)) == [OPEN_BRACKET] + (s[off + 1..p] + (WriteElements(es) + [CLOSE_BRACKET]));
  }

  // es is what stands in s from p up to and including the closing bracket, and it means what was returned.
  ghost predicate ExplainsItems(s: bytes, p: nat, r: Parsed<seq<Value>>, es: seq<Element>, depth: int, strtod: Strtod) {
    && r.Ok? && es != [] && p <= r.next <= |s| && s[p..r.next] == WriteElements(es) + [CLOSE_BRACKET]
    && DelimitedElements(es, strtod) && LegibleElements(es)
    && MeaningOfElements(es, strtod) == r.value && depth + NestingOfItems(r.value) <= NESTING_LIMIT
  }

  lemma NothingBehind(strtod: Strtod)
    ensures DelimitedElements([], strtod) && LegibleElements([]) && MeaningOfElements([], strtod) == []
    ensures DelimitedEntries([], strtod) && LegibleEntries([]) && MeaningOfEntries([], strtod) == []
    ensures NestingOfItems([]) == 0 && NestingOfMembers([]) == 0
  {
  }

  // One element in front of others.
  lemma ElementBefore(e: Element, rest: seq<Element>, depth: int, strtod: Strtod)
    requires Blank(e.before) && Blank(e.after) && Grammatical(e.item, strtod)
    requires DelimitedElements(rest, strtod) && LegibleElements(rest)
    requires depth + Nesting(Meaning(e.item, strtod)) <= NESTING_LIMIT
    requires depth + NestingOfItems(MeaningOfElements(rest, strtod)) <= NESTING_LIMIT
    ensures var es := [e] + rest; var values := [Meaning(e.item, strtod)] + MeaningOfElements(rest, strtod);
            && es[1..] == rest && DelimitedElements(es, strtod) && LegibleElements(es)
            && MeaningOfElements(es, strtod) == values && depth + NestingOfItems(values) <= NESTING_LIMIT
  {
    hide Conforms, Delimited, Legible, Meaning, Nesting, Blank;
    var es := [e] + rest;
    assert es[1..] == rest;
    var v, more := Meaning(e.item, strtod), MeaningOfElements(rest, strtod);
    assert ([v] + more)[1..] == more;
  }

  lemma {:induction false} ItemsRead(s: bytes, p: nat, depth: int, strtod: Strtod) returns (es: seq<Element>)
    requires p <= |s| && depth <= NESTING_LIMIT && ParseItemsAt(s, p, depth, strtod).Ok?
    ensures ExplainsItems(s, p, ParseItemsAt(s, p, depth, strtod), es, depth, strtod)
    decreases |s| - p, 2
  {
    hide Conforms, ParseValueAt, Skip, Delimited, Legible, Meaning, Nesting, Write, Blank,
      WriteElements, DelimitedElements, LegibleElements, MeaningOfElements, NestingOfItems;
    var b := Skip(s, p);
    SkipBlank(s, p);
    var v := ValueRead(s, b, depth, strtod);
    var next := ParseValueAt(s, b, depth, strtod).next;
    var q := Skip(s, next);
    SkipBlank(s, next);
    var e, rest, end := Element(s[p..b], v, s[next..q]), [], q + 1;
    NothingBehind(strtod);
    if ByteAt(s, q, COMMA) {
      rest := ItemsRead(s, q + 1, depth, strtod);
      end := ParseItemsAt(s, q + 1, depth, strtod).next;
    }
    es := [e] + rest;
    ElementBefore(e, rest, depth, strtod);
    assert [Meaning(v, strtod)] + [] == [Meaning(v, strtod)];
    ItemsText(s, p, b, next, q, end, v, es);
  }

  // The text of the first element and what follows it.
  lemma ItemsText(s: bytes, p: nat, b: nat, n: nat, q: nat, end: nat, v: Syntax, es: seq<Element>)
    requires p <= b <= n <= q < end <= |s| && s[b..n] == Write(v)
    requires es != [] && es[0] == Element(s[p..b], v, s[n..q])
    requires if |es| == 1 then s[q] == CLOSE_BRACKET && end == q + 1
             else s[q] == COMMA && s[q + 1..end] == WriteElements(es[1..]) + [CLOSE_BRACKET]
    ensures s[p..end] == WriteElements(es) + [CLOSE_BRACKET]
  {
    hide Write;
    ThreeParts(s, p, b, n, end);
    var more := MoreElements(es);
    assert s[q..end] == more + [CLOSE_BRACKET] by {
      hide WriteElements;
      OneByte(s, q, end);
    }
    TwoParts(s, n, q, end);
    hide MoreElements;
    Rejoin(s[p..b], s[b..n], s[n..q], more, [CLOSE_BRACKET]);
  }

  lemma Rejoin(b: bytes, v: bytes, a: bytes, m: bytes, c: bytes)
    ensures b + (v + (a + (m + c))) == (b + (v + (a + m))) + c
  {
  }

  lemma {:induction false} ObjectRead(s: bytes, off: nat, depth: int, strtod: Strtod) returns (t: Syntax)
    requires off < |s| && s[off] == OPEN_BRACE && depth <= NESTING_LIMIT && ParseObjectAt(s, off, depth, strtod).Ok?
    ensures Explains(s, off, ParseObjectAt(s, off, depth, strtod), t, depth, strtod)
    decreases |s| - off, 0
  {
    hide Conforms, ParseMembersAt, Skip, Blank;
    var p := Skip(s, off + 1);
    SkipBlank(s, off + 1);
    var gap := s[off + 1..p];
    if s[p] == CLOSE_BRACE {
      t := Record(gap, []);
      NoEntries(strtod);
      RecordText(s, off, p, p + 1, []);
      RecordOf(gap, [], strtod);
    } else {
      var es := MembersRead(s, p, depth + 1, strtod);
      t := Record(gap, es);
      RecordOf(gap, es, strtod);
      RecordText(s, off, p, ParseMembersAt(s, p, depth + 1, strtod).next, es);
    }
  }

  lemma RecordText(s: bytes, off: nat, p: nat, end: nat, es: seq<Entry>)
    requires off < p <= end <= |s| && s[off] == OPEN_BRACE && s[p..end] == WriteEntries(es) + [CLOSE_BRACE]
    ensures s[off..end] == Write(Record(s[off + 1..p], es))
  {
    ThreeParts(s, off, off + 1, p, end);
    assert s[off..off + 1] == [OPEN_BRACE];
    assert Write(Record(s[off + 1..p], es)) == [OPEN_BRACE] + (s[off + 1..p] + (WriteEntries(es) + [CLOSE_BRACE]));
  }

  // es is what stands in s from p up to and including the closing brace, and it means what was returned.
  ghost predicate ExplainsMembers(s: bytes, p: nat, r: Parsed<seq<Member>>, es: seq<Entry>, depth: int,
      strtod: Strtod) {
    && r.Ok? && es != [] && p <= r.next <= |s| && s[p..r.next] == WriteEntries(es) + [CLOSE_BRACE]
    && DelimitedEntries(es, strtod) && LegibleEntries(es)
    && MeaningOfEntries(es, strtod) == r.value && depth + NestingOfMembers(r.value) <= NESTING_LIMIT
  }

  // One entry in front of others.
  lemma EntryBefore(e: Entry, rest: seq<Entry>, depth: int, strtod: Strtod)
    requires DelimitedEntry(e, strtod) && LegibleEntry(e) && Blank(e.after)
    requires DelimitedEntries(rest, strtod) && LegibleEntries(rest)
    requires depth + Nesting(Meaning(e.item, strtod)) <= NESTING_LIMIT
    requires depth + NestingOfMembers(MeaningOfEntries(rest, strtod)) <= NESTING_LIMIT
    ensures var es := [e] + rest;
            var ms := [Member(TextOf(e.key), Meaning(e.item, strtod))] + MeaningOfEntries(rest, strtod);
            && es[1..] == rest && DelimitedEntries(es, strtod) && LegibleEntries(es)
            && MeaningOfEntries(es, strtod) == ms && depth + NestingOfMembers(ms) <= NESTING_LIMIT
  {
    hide Conforms, DelimitedEntry, LegibleEntry, Meaning, Nesting, Blank, TextOf;
    var es := [e] + rest;
    assert es[1..] == rest;
    var m, more := Member(TextOf(e.key), Meaning(e.item, strtod)), MeaningOfEntries(rest, strtod);
    assert ([m] + more)[1..] == more;
  }

  lemma {:induction false} MembersRead(s: bytes, p: nat, depth: int, strtod: Strtod) returns (es: seq<Entry>)
    requires p <= |s| && depth <= NESTING_LIMIT && ParseMembersAt(s, p, depth, strtod).Ok?
    ensures ExplainsMembers(s, p, ParseMembersAt(s, p, depth, strtod), es, depth, strtod)
    decreases |s| - p, 3
  {
    hide Conforms, ParseMemberAt, Skip, DelimitedEntry, LegibleEntry, Meaning, Nesting, WriteEntry, Blank, TextOf,
      WriteEntries, DelimitedEntries, LegibleEntries, MeaningOfEntries, NestingOfMembers;
    var e := MemberRead(s, p, depth, strtod);
    var next := ParseMemberAt(s, p, depth, strtod).next;
    var q := Skip(s, next);
    SkipBlank(s, next);
    AfterDoesNotMatter(e, s[next..q], strtod);
    e := e.(after := s[next..q]);
    var rest, end := [], q + 1;
    NothingBehind(strtod);
    if ByteAt(s, q, COMMA) {
      rest := MembersRead(s, q + 1, depth, strtod);
      end := ParseMembersAt(s, q + 1, depth, strtod).next;
    }
    es := [e] + rest;
    EntryBefore(e, rest, depth, strtod);
    var m := ParseMemberAt(s, p, depth, strtod).value;
    assert [m] + [] == [m];
    MembersText(s, p, next, q, end, es);
  }

  lemma AfterDoesNotMatter(e: Entry, after: bytes, strtod: Strtod)
    ensures var e' := e.(after := after);
            WriteEntry(e') == WriteEntry(e) && DelimitedEntry(e', strtod) == DelimitedEntry(e, strtod)
            && LegibleEntry(e') == LegibleEntry(e)
  {
  }

  lemma MembersText(s: bytes, p: nat, n: nat, q: nat, end: nat, es: seq<Entry>)
    requires es != [] && p <= n <= q < end <= |s| && s[p..n] == WriteEntry(es[0]) && es[0].after == s[n..q]
    requires if |es| == 1 then s[q] == CLOSE_BRACE && end == q + 1
             else s[q] == COMMA && s[q + 1..end] == WriteEntries(es[1..]) + [CLOSE_BRACE]
    ensures s[p..end] == WriteEntries(es) + [CLOSE_BRACE]
  {
    hide WriteEntry;
    ThreeParts(s, p, n, q, end);
    var more := MoreEntries(es);
    assert s[q..end] == more + [CLOSE_BRACE] by {
      hide WriteEntries;
      OneByte(s, q, end);
    }
    hide MoreEntries;
    RejoinEntry(s[p..n], s[n..q], more, [CLOSE_BRACE]);
  }

  lemma OneByte(s: bytes, q: nat, end: nat)
    requires q < end <= |s|
    ensures s[q..end] == [s[q]] + s[q + 1..end]
  {
  }

  lemma RejoinEntry(e: bytes, a: bytes, m: bytes, c: bytes)
    ensures e + (a + (m + c)) == (e + (a + m)) + c
  {
  }

  // The entry of an accepted member, without the white space behind it.
  lemma {:induction false} MemberRead(s: bytes, p: nat, depth: int, strtod: Strtod) returns (e: Entry)
    requires p <= |s| && depth <= NESTING_LIMIT && ParseMemberAt(s, p, depth, strtod).Ok?
    ensures var r := ParseMemberAt(s, p, depth, strtod);
            && p <= r.next <= |s| && s[p..r.next] == WriteEntry(e) && DelimitedEntry(e, strtod) && LegibleEntry(e)
                && e.after == []
            && Member(TextOf(e.key), Meaning(e.item, strtod)) == r.value
                && depth + Nesting(r.value.value) <= NESTING_LIMIT
    decreases |s| - p, 2
  {
    hide Conforms, ParseStringAt, ParseValueAt, Skip, Delimited, Legible, Meaning, Nesting, Write, Blank, Closed,
        Decodable, TextOf, InQuotes;
    var k := Skip(s, p);
    SkipBlank(s, p);
    StringRead(s, k);
    var next := ParseStringAt(s, k).next;
    var c := Skip(s, next);
    SkipBlank(s, next);
    var d := Skip(s, c + 1);
    SkipBlank(s, c + 1);
    var v := ValueRead(s, d, depth, strtod);
    e := Entry(s[p..k], s[k + 1..next - 1], s[next..c], s[c + 1..d], v, []);
    EntryIs(s, p, k, next, c, d, ParseValueAt(s, d, depth, strtod).next, e);
  }

  lemma EntryIs(s: bytes, p: nat, k: nat, n: nat, c: nat, d: nat, end: nat, e: Entry)
    requires p <= k <= n <= c < d <= end <= |s| && s[k..n] == InQuotes(e.key) && s[c] == COLON
        && s[d..end] == Write(e.item)
    requires e.before == s[p..k] && e.beforeColon == s[n..c] && e.afterColon == s[c + 1..d]
    ensures s[p..end] == WriteEntry(e)
  {
    hide InQuotes, Write;
    ThreeParts(s, p, k, n, end);
    ThreeParts(s, n, c, c + 1, end);
    TwoParts(s, c + 1, d, end);
    assert s[c..c + 1] == [COLON];
  }

  // ----- Whole texts -----

  const MARK: bytes := [0xEF, 0xBB, 0xBF]

  // The byte order mark U+FEFF in UTF-8.
  lemma MarkIsEncoded()
    ensures MARK == Utf16.Utf8(0xFEFF)
  {
  }

  // A C string that consists of an optional byte order mark, white space, a written value and anything at all.
  ghost predicate Splits(text: bytes, mark: bool, before: bytes, t: Syntax, rest: bytes) {
    && NoNul(text) && Blank(before)
    && text == (if mark then MARK else []) + (before + (Write(t) + rest))
  }

  // A text whose parts are where the parser looks for them is parsed to its meaning if every string in it is accepted
  // and it is not nested too deeply, and is rejected otherwise. What follows the value is ignored, unless the
  // value is a number and the next byte may continue it.
  lemma TextParses(text: bytes, mark: bool, before: bytes, t: Syntax, rest: bytes, strtod: Strtod)
    requires Splits(text, mark, before, t, rest) && Delimited(t, strtod)
    requires t.Numeral? && rest != [] ==> !NumberByte(rest[0])
    ensures ParseText(text, strtod)
            == if Legible(t) && Nesting(Meaning(t, strtod)) <= NESTING_LIMIT then Some(Meaning(t, strtod)) else None
  {
    hide Conforms, ParseValueAt, Skip, Write, Delimited, Legible, Meaning, Nesting, At, StartsValue, NumberByte;
    var s := text + [0];
    var start := if mark then 3 else 0;
    var value := Write(t);
    WriteStarts(t, strtod);
    TextPlaces(text, mark, before, value, rest);
    SkipTo(s, start, before, value + (rest + [0]));
    AtConcat(s, start + |before|, value, rest + [0]);
    if t.Numeral? {
      EndOfValue(s, start + |before| + |value|, rest);
    }
    ValueParses(s, start + |before|, t, 0, strtod);
  }

  // Texts of RFC 8259 with any white space, the numbers as strtod converts them: such a text is parsed to what it says
  // if and only if no string in it has a lone surrogate and it is nested at most 1000 deep.
  lemma StandardTextParses(before: bytes, t: Syntax, after: bytes, strtod: Strtod)
    requires StandardSpace(before) && Standard(t) && StandardSpace(after) && ConvertsNumerals(strtod)
    ensures NoNul(before + (Write(t) + after))
    ensures ParseText(before + (Write(t) + after), strtod)
            == if SurrogatesPaired(t) && Nesting(Meaning(t, strtod)) <= NESTING_LIMIT
               then Some(Meaning(t, strtod)) else None
    ensures t.Literal? && SurrogatesPaired(t) ==>
              Denotes(t.body).Some? && Meaning(t, strtod) == String(CString(Denotes(t.body).value))
  {
    hide Conforms, ConvertsNumerals, Write, Delimited, ParseText, Nesting, Closed, Decodable, Denotes, StandardBody,
      NoLoneSurrogate, NoNul;
    StandardIsGrammatical(t, strtod);
    if t.Literal? {
      StandardBodyIsRead(t.body);
    }
    StandardHasNoNul(t);
    SpaceHasNoNul(before);
    SpaceHasNoNul(after);
    NoNulConcat(Write(t), after);
    NoNulConcat(before, Write(t) + after);
    var text := before + (Write(t) + after);
    assert text == [] + (before + (Write(t) + after));
    TextParses(text, false, before, t, after, strtod);
  }

  lemma SpaceHasNoNul(w: bytes)
    requires StandardSpace(w)
    ensures NoNul(w)
  {
  }

  lemma ThreeNoNul(p: bytes, q: bytes, r: bytes)
    requires NoNul(p) && NoNul(q) && NoNul(r)
    ensures NoNul(p + (q + r))
  {
    NoNulConcat(q, r);
    NoNulConcat(p, q + r);
  }

  // A text of sections 2 to 7 is a C string.
  lemma {:induction false} StandardHasNoNul(t: Syntax)
    requires Standard(t)
    ensures NoNul(Write(t))
    decreases t, 0
  {
    hide NoNul, StandardBody, StandardNumeral;
    match t {
      case Word(v) => WordHasNoNul(v);
      case Numeral(token) => NumeralHasNoNul(token);
      case Literal(body) => QuotesHaveNoNul(body);
      case List(gap, es) =>
        ElementsHaveNoNul(es);
        SpaceHasNoNul(gap);
        BracketsHaveNoNul(OPEN_BRACKET, gap, WriteElements(es), CLOSE_BRACKET);
      case Record(gap, es) =>
        EntriesHaveNoNul(es);
        SpaceHasNoNul(gap);
        BracketsHaveNoNul(OPEN_BRACE, gap, WriteEntries(es), CLOSE_BRACE);
    }
  }

  lemma WordHasNoNul(v: Value)
    ensures NoNul(WordText(v))
  {
  }

  lemma NumeralHasNoNul(token: bytes)
    requires StandardNumeral(token)
    ensures NoNul(token)
  {
    StandardIsNumberBytes(token);
  }

  lemma QuotesHaveNoNul(body: bytes)
    requires StandardBody(body)
    ensures NoNul(InQuotes(body))
  {
    BodyHasNoNul(body);
  }

  lemma BracketsHaveNoNul(open: byte, gap: bytes, inside: bytes, close: byte)
    requires NoNul(gap) && NoNul(inside) && open != 0 && close != 0
    ensures NoNul([open] + (gap + (inside + [close])))
  {
    ThreeNoNul(gap, inside, [close]);
    NoNulConcat([open], gap + (inside + [close]));
  }

  lemma {:induction false} ElementsHaveNoNul(es: seq<Element>)
    requires StandardElements(es)
    ensures NoNul(WriteElements(es))
    decreases es, 1
  {
    if es == [] {
      return;
    }
    hide NoNul, Standard, Write;
    StandardHasNoNul(es[0].item);
    SpaceHasNoNul(es[0].before);
    SpaceHasNoNul(es[0].after);
    ElementsHaveNoNul(es[1..]);
    CommaHasNoNul(|es| == 1, WriteElements(es[1..]));
    ThreeNoNul(Write(es[0].item), es[0].after, MoreElements(es));
    NoNulConcat(es[0].before, Write(es[0].item) + (es[0].after + MoreElements(es)));
  }

  lemma CommaHasNoNul(last: bool, more: bytes)
    requires NoNul(more)
    ensures NoNul(if last then [] else [COMMA] + more)
  {
    NoNulConcat([COMMA], more);
  }

  lemma {:induction false} EntriesHaveNoNul(es: seq<Entry>)
    requires StandardEntries(es)
    ensures NoNul(WriteEntries(es))
    decreases es, 1
  {
    if es == [] {
      return;
    }
    hide NoNul, Standard, Write, StandardBody;
    var e := es[0];
    StandardHasNoNul(e.item);
    EntryHasNoNul(e);
    SpaceHasNoNul(e.after);
    EntriesHaveNoNul(es[1..]);
    CommaHasNoNul(|es| == 1, WriteEntries(es[1..]));
    hide WriteEntry;
    ThreeNoNul(WriteEntry(e), e.after, MoreEntries(es));
  }

  lemma EntryHasNoNul(e: Entry)
    requires StandardEntry(e) && NoNul(Write(e.item))
    ensures NoNul(WriteEntry(e))
  {
    hide NoNul, Standard, Write, StandardBody;
    QuotesHaveNoNul(e.key);
    SpaceHasNoNul(e.before);
    SpaceHasNoNul(e.beforeColon);
    SpaceHasNoNul(e.afterColon);
    ColonHasNoNul();
    ThreeNoNul([COLON], e.afterColon, Write(e.item));
    ThreeNoNul(InQuotes(e.key), e.beforeColon, [COLON] + (e.afterColon + Write(e.item)));
    NoNulConcat(e.before, InQuotes(e.key) + (e.beforeColon + ([COLON] + (e.afterColon + Write(e.item)))));
  }

  lemma ColonHasNoNul()
    ensures NoNul([COLON])
  {
  }

  lemma EndOfValue(s: bytes, e: nat, rest: bytes)
    requires At(s, e, rest + [0]) && (rest != [] ==> !NumberByte(rest[0]))
    ensures Ended(s, e)
  {
    AtByte(s, e, rest + [0], 0);
  }

  lemma TextPlaces(text: bytes, mark: bool, before: bytes, value: bytes, rest: bytes)
    requires text == (if mark then MARK else []) + (before + (value + rest)) && Blank(before)
    requires value != [] && value[0] > 32 && value[0] != 0xEF
    ensures var s := text + [0];
            && At(s, if mark then 3 else 0, before + (value + (rest + [0])))
            && (mark <==> |s| > 4 && s[..3] == MARK)
  {
    var s := text + [0];
    assert s == (if mark then MARK else []) + (before + (value + (rest + [0])));
    if mark {
      assert s[..3] == MARK;
      assert s[3..] == before + (value + (rest + [0]));
    } else {
      assert s[0] == (before + value)[0];
      assert s == before + (value + (rest + [0]));
      if |s| > 4 {
        assert s[..3][0] == s[0] != 0xEF;
      }
    }
  }

  // Whatever is accepted is such a text, and the value returned is its meaning, nested at most 1000 deep.
  lemma TextRead(text: bytes, strtod: Strtod) returns (mark: bool, before: bytes, t: Syntax, rest: bytes)
    requires NoNul(text) && ParseText(text, strtod).Some?
    ensures Splits(text, mark, before, t, rest) && Grammatical(t, strtod)
    ensures ParseText(text, strtod).value == Meaning(t, strtod) && Nesting(Meaning(t, strtod)) <= NESTING_LIMIT
  {
    hide Conforms, ParseValueAt, Skip, Write, Delimited, Legible, Meaning, Nesting, Blank;
    var s := text + [0];
    mark := |s| > 4 && s[..3] == MARK;
    var start := if mark then 3 else 0;
    var b := Skip(s, start);
    SkipBlank(s, start);
    t := ValueRead(s, b, 0, strtod);
    var end := ParseValueAt(s, b, 0, strtod).next;
    WriteEnds(t, strtod);
    before, rest := s[start..b], text[end..];
    TextParts(text, mark, start, b, end, Write(t));
  }

  lemma TextParts(text: bytes, mark: bool, start: nat, b: nat, end: nat, value: bytes)
    requires var s := text + [0];
             start <= b <= end <= |s| && s[b..end] == value
                 && (if mark then start == 3 && s[..3] == MARK else start == 0)
    requires value != [] && value[|value| - 1] != 0
    ensures end <= |text| && text == (if mark then MARK else []) + ((text + [0])[start..b] + (value + text[end..]))
  {
    var s := text + [0];
    BeforeTerminator(text, b, end, value);
    SameSlice(text, 0, start);
    SameSlice(text, start, b);
    SameSlice(text, b, end);
    if mark {
      assert s[..3] == s[0..3];
    }
    hide MARK;
    FromStart(text, start);
    ThreeParts(text, start, b, end, |text|);
  }

  lemma BeforeTerminator(text: bytes, b: nat, end: nat, value: bytes)
    requires b <= end <= |text| + 1 && (text + [0])[b..end] == value && value != [] && value[|value| - 1] != 0
    ensures end <= |text|
  {
    assert (text + [0])[end - 1] == value[|value| - 1];
  }

  lemma SameSlice(text: bytes, a: nat, b: nat)
    requires a <= b <= |text|
    ensures (text + [0])[a..b] == text[a..b]
  {
  }

  lemma FromStart(text: bytes, n: nat)
    requires n <= |text|
    ensures text == text[0..n] + text[n..|text|] && text[n..] == text[n..|text|] && (n == 0 ==> text[0..n] == [])
  {
  }

  // A written value does not end in the terminator of the buffer.
  lemma WriteEnds(t: Syntax, strtod: Strtod)
    requires Grammatical(t, strtod)
    ensures Write(t) != [] && Write(t)[|Write(t)| - 1] != 0
  {
    hide Conforms, Closed, Decodable, WriteElements, WriteEntries;
    match t {
      case Word(v) =>
      case Numeral(token) => assert NumberByte(token[|token| - 1]);
      case Literal(body) => LastByte([QUOTE], [], body, QUOTE);
      case List(gap, es) => LastByte([OPEN_BRACKET], gap, WriteElements(es), CLOSE_BRACKET);
      case Record(gap, es) => LastByte([OPEN_BRACE], gap, WriteEntries(es), CLOSE_BRACE);
    }
  }

  lemma LastByte(p: bytes, q: bytes, r: bytes, b: byte)
    ensures var w := p + (q + (r + [b])); w[|w| - 1] == b
    ensures var w := p + (r + [b]); w[|w| - 1] == b
  {
  }

  // Two grammatical trees that write the same text mean the same, however deeply they are nested: both are read from a
  // depth that leaves room for them.
  lemma Unambiguous(t: Syntax, u: Syntax, strtod: Strtod)
    requires Grammatical(t, strtod) && Grammatical(u, strtod) && Write(t) == Write(u)
    ensures Meaning(t, strtod) == Meaning(u, strtod)
  {
    hide Conforms, Write, Meaning, Nesting, Delimited, Legible;
    var text := Write(t);
    var depth := NESTING_LIMIT - Nesting(Meaning(t, strtod)) - Nesting(Meaning(u, strtod));
    assert At(text, 0, Write(t)) && Ended(text, |text|);
    hide At, Ended, ParseValueAt;
    ValueParses(text, 0, t, depth, strtod);
    ValueParses(text, 0, u, depth, strtod);
  }
}
