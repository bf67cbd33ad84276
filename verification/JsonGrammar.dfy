// The grammar of JSON texts as trees of what is written, what such a tree means, and that the parser reads exactly
// these texts: whatever is grammatical is accepted with its meaning, and whatever is accepted is grammatical.
module JsonGrammar {
  import opened Bytes
  import opened JsonValue
  import opened JsonNumber
  import opened JsonString
  import opened StringGrammar
  import opened JsonText

  // ----- Written texts -----

  datatype Syntax =
    | Word(value: Value)
    | Numeral(token: bytes)
    | Literal(body: bytes)
    | List(gap: bytes, elements: seq<Element>)
    | Record(gap: bytes, entries: seq<Entry>)

  datatype Element = Element(before: bytes, item: Syntax, after: bytes)

  datatype Entry = Entry(before: bytes, key: bytes, beforeColon: bytes, afterColon: bytes, item: Syntax, after: bytes)

  function WordText(v: Value): bytes {
    match v
    case False => FALSE_TEXT
    case True => TRUE_TEXT
    case _ => NULL_TEXT
  }

  function InQuotes(body: bytes): bytes {
    [QUOTE] + (body + [QUOTE])
  }

  function Write(t: Syntax): bytes
    decreases t, 0
  {
    match t
    case Word(v) => WordText(v)
    case Numeral(token) => token
    case Literal(body) => InQuotes(body)
    case List(gap, es) => [OPEN_BRACKET] + (gap + (WriteElements(es) + [CLOSE_BRACKET]))
    case Record(gap, es) => [OPEN_BRACE] + (gap + (WriteEntries(es) + [CLOSE_BRACE]))
  }

  function WriteElements(es: seq<Element>): bytes
    decreases es, 1
  {
    if es == [] then []
    else es[0].before + (Write(es[0].item) + (es[0].after + MoreElements(es)))
  }

  function MoreElements(es: seq<Element>): bytes
    requires es != []
    decreases es, 0
  {
    if |es| == 1 then [] else [COMMA] + WriteElements(es[1..])
  }

  function WriteEntries(es: seq<Entry>): bytes
    decreases es, 1
  {
    if es == [] then []
    else WriteEntry(es[0]) + (es[0].after + MoreEntries(es))
  }

  function WriteEntry(e: Entry): bytes
    decreases e, 1
  {
    e.before + (InQuotes(e.key) + (e.beforeColon + ([COLON] + (e.afterColon + Write(e.item)))))
  }

  function MoreEntries(es: seq<Entry>): bytes
    requires es != []
    decreases es, 0
  {
    if |es| == 1 then [] else [COMMA] + WriteEntries(es[1..])
  }

  // ----- Meaning -----

  function Meaning(t: Syntax, strtod: Strtod): Value
    decreases t, 0
  {
    match t
    case Word(v) => v
    case Numeral(token) => if strtod(token).Some? then Number(Saturate(strtod(token).value.whole)) else Null
    case Literal(body) => String(TextOf(body))
    case List(_, es) => Array(MeaningOfElements(es, strtod))
    case Record(_, es) => Object(MeaningOfEntries(es, strtod))
  }

  // The text of a literal as a C string.
  function TextOf(body: bytes): bytes {
    if Readable(body) then ReadText(body) else []
  }

  function MeaningOfElements(es: seq<Element>, strtod: Strtod): seq<Value>
    decreases es, 1
  {
    if es == [] then [] else [Meaning(es[0].item, strtod)] + MeaningOfElements(es[1..], strtod)
  }

  function MeaningOfEntries(es: seq<Entry>, strtod: Strtod): seq<Member>
    decreases es, 1
  {
    if es == [] then []
    else [Member(TextOf(es[0].key), Meaning(es[0].item, strtod))] + MeaningOfEntries(es[1..], strtod)
  }

  // ----- What may be written -----

  predicate Blank(w: bytes) {
    forall k :: 0 <= k < |w| ==> w[k] <= 32
  }

  // A token that starts like a number and that strtod converts completely.
  predicate WholeNumeral(token: bytes, strtod: Strtod) {
    && token != [] && (token[0] == MINUS || IsDigit(token[0])) && NumberBytes(token)
    && strtod(token).Some? && strtod(token).value.used == |token|
  }

  // Texts whose parts are where the parser looks for them: any byte up to 32 is white space, and every string ends at
  // the quote where the first pass ends it.
  predicate Delimited(t: Syntax, strtod: Strtod)
    decreases t, 0
  {
    match t
    case Word(v) => v.Null? || v.False? || v.True?
    case Numeral(token) => WholeNumeral(token, strtod)
    case Literal(body) => Closed(body)
    case List(gap, es) => Blank(gap) && DelimitedElements(es, strtod)
    case Record(gap, es) => Blank(gap) && DelimitedEntries(es, strtod)
  }

  predicate DelimitedElements(es: seq<Element>, strtod: Strtod)
    decreases es, 1
  {
    es == [] || (Blank(es[0].before) && Delimited(es[0].item, strtod) && Blank(es[0].after)
                 && DelimitedElements(es[1..], strtod))
  }

  predicate DelimitedEntries(es: seq<Entry>, strtod: Strtod)
    decreases es, 1
  {
    es == [] || (DelimitedEntry(es[0], strtod) && Blank(es[0].after) && DelimitedEntries(es[1..], strtod))
  }

  predicate DelimitedEntry(e: Entry, strtod: Strtod)
    decreases e, 1
  {
    && Blank(e.before) && Closed(e.key) && Blank(e.beforeColon) && Blank(e.afterColon)
    && Delimited(e.item, strtod)
  }

  // Every string in them is accepted by the second pass.
  predicate Legible(t: Syntax)
    decreases t, 0
  {
    match t
    case Literal(body) => Decodable(body)
    case List(_, es) => LegibleElements(es)
    case Record(_, es) => LegibleEntries(es)
    case _ => true
  }

  predicate LegibleElements(es: seq<Element>)
    decreases es, 1
  {
    es == [] || (Legible(es[0].item) && LegibleElements(es[1..]))
  }

  predicate LegibleEntries(es: seq<Entry>)
    decreases es, 1
  {
    es == [] || (LegibleEntry(es[0]) && LegibleEntries(es[1..]))
  }

  predicate LegibleEntry(e: Entry)
    decreases e, 1
  {
    Decodable(e.key) && Legible(e.item)
  }

  // The texts of the parser's dialect.
  predicate Grammatical(t: Syntax, strtod: Strtod) {
    Delimited(t, strtod) && Legible(t)
  }

  // ----- The texts of RFC 8259 among them -----

  // ws of section 2
  predicate StandardSpace(w: bytes) {
    forall k :: 0 <= k < |w| ==> w[k] == SPACE || w[k] == TAB || w[k] == NEWLINE || w[k] == 13
  }

  // Sections 2 to 7, on the level of bytes.
  predicate Standard(t: Syntax)
    decreases t, 0
  {
    match t
    case Word(v) => v.Null? || v.False? || v.True?
    case Numeral(token) => StandardNumeral(token)
    case Literal(body) => StandardBody(body)
    case List(gap, es) => StandardSpace(gap) && StandardElements(es)
    case Record(gap, es) => StandardSpace(gap) && StandardEntries(es)
  }

  predicate StandardElements(es: seq<Element>)
    decreases es, 1
  {
    es == [] || (StandardSpace(es[0].before) && Standard(es[0].item) && StandardSpace(es[0].after)
        && StandardElements(es[1..]))
  }

  predicate StandardEntries(es: seq<Entry>)
    decreases es, 1
  {
    es == [] || (StandardEntry(es[0]) && StandardSpace(es[0].after) && StandardEntries(es[1..]))
  }

  predicate StandardEntry(e: Entry)
    decreases e, 1
  {
    && StandardSpace(e.before) && StandardBody(e.key) && StandardSpace(e.beforeColon) && StandardSpace(e.afterColon)
    && Standard(e.item)
  }

  // No string in the text has a lone or reversed surrogate, of which section 8.2 warns.
  predicate SurrogatesPaired(t: Syntax)
    decreases t, 0
  {
    match t
    case Literal(body) => NoLoneSurrogate(body)
    case List(_, es) => ElementsPaired(es)
    case Record(_, es) => EntriesPaired(es)
    case _ => true
  }

  predicate ElementsPaired(es: seq<Element>)
    decreases es, 1
  {
    es == [] || (SurrogatesPaired(es[0].item) && ElementsPaired(es[1..]))
  }

  predicate EntriesPaired(es: seq<Entry>)
    decreases es, 1
  {
    es == [] || (NoLoneSurrogate(es[0].key) && SurrogatesPaired(es[0].item) && EntriesPaired(es[1..]))
  }

  // A text of sections 2 to 7 is delimited as the parser expects, and belongs to its dialect if and only if its
  // surrogates are paired.
  lemma {:induction false} StandardIsGrammatical(t: Syntax, strtod: Strtod)
    requires Standard(t) && ConvertsNumerals(strtod)
    ensures Delimited(t, strtod) && (Grammatical(t, strtod) <==> SurrogatesPaired(t))
    decreases t, 0
  {
    hide Conforms, StandardNumeral, Closed, Decodable, StandardBody, NoLoneSurrogate;
    match t {
      case Word(v) =>
      case Numeral(token) => StandardIsNumberBytes(token);
      case Literal(body) => StandardBodyIsRead(body);
      case List(gap, es) => StandardElementsAreGrammatical(es, strtod);
      case Record(gap, es) => StandardEntriesAreGrammatical(es, strtod);
    }
  }

  lemma {:induction false} StandardElementsAreGrammatical(es: seq<Element>, strtod: Strtod)
    requires StandardElements(es) && ConvertsNumerals(strtod)
    ensures DelimitedElements(es, strtod) && (LegibleElements(es) <==> ElementsPaired(es))
    decreases es, 1
  {
    hide Conforms, ConvertsNumerals, Standard, Delimited, Legible, SurrogatesPaired;
    if es != [] {
      StandardIsGrammatical(es[0].item, strtod);
      StandardElementsAreGrammatical(es[1..], strtod);
    }
  }

  lemma {:induction false} StandardEntriesAreGrammatical(es: seq<Entry>, strtod: Strtod)
    requires StandardEntries(es) && ConvertsNumerals(strtod)
    ensures DelimitedEntries(es, strtod) && (LegibleEntries(es) <==> EntriesPaired(es))
    decreases es, 1
  {
    hide Conforms, ConvertsNumerals, Standard, Delimited, Legible, SurrogatesPaired, Closed, Decodable, StandardBody,
        NoLoneSurrogate;
    if es != [] {
      StandardBodyIsRead(es[0].key);
      StandardIsGrammatical(es[0].item, strtod);
      StandardEntriesAreGrammatical(es[1..], strtod);
    }
  }

  // ----- White space and tokens at their place in a text -----

  lemma {:induction false} SkipAllOver(s: bytes, i: nat, w: bytes)
    requires At(s, i, w) && Blank(w)
    requires i + |w| < |s| && s[i + |w|] > 32
    ensures SkipAll(s, i) == i + |w|
    decreases |w|
  {
    if w != [] {
      AtByte(s, i, w, 0);
      assert w == w[..1] + w[1..];
      AtConcat(s, i, w[..1], w[1..]);
      SkipAllOver(s, i + 1, w[1..]);
    }
  }

  // White space in front of anything else is skipped, and nothing else is.
  lemma SkipOver(s: bytes, i: nat, w: bytes)
    requires At(s, i, w) && Blank(w)
    requires i + |w| < |s| && s[i + |w|] > 32
    ensures Skip(s, i) == i + |w|
  {
    SkipAllOver(s, i, w);
  }

  // White space p at i, then something that starts with a byte above 32.
  lemma SkipTo(s: bytes, i: nat, w: bytes, p: bytes)
    requires At(s, i, w + p) && Blank(w) && p != [] && p[0] > 32
    ensures At(s, i, w) && At(s, i + |w|, p) && i + |w| < |s| && s[i + |w|] == p[0] && Skip(s, i) == i + |w|
  {
    AtConcat(s, i, w, p);
    AtByte(s, i + |w|, p, 0);
    SkipOver(s, i, w);
  }

  predicate StartsValue(b: byte) {
    b == 110 || b == 102 || b == 116 || b == QUOTE || b == MINUS || IsDigit(b) || b == OPEN_BRACKET || b == OPEN_BRACE
  }

  lemma WriteStarts(t: Syntax, strtod: Strtod)
    requires Delimited(t, strtod)
    ensures Write(t) != [] && StartsValue(Write(t)[0]) && 32 < Write(t)[0] < 128
  {
    hide Conforms, Closed;
  }

  // What follows a value inside a list or record cannot continue a number.
  lemma NotNumber(w: bytes, p: bytes)
    requires Blank(w) && p != [] && !NumberByte(p[0])
    ensures w + p != [] && !NumberByte((w + p)[0])
  {
  }

  // The first byte decides which parser runs.
  lemma Dispatch(s: bytes, off: nat, depth: int, strtod: Strtod)
    requires off < |s|
    ensures s[off] == MINUS || IsDigit(s[off]) ==> ParseValueAt(s, off, depth, strtod) == ParseNumberAt(s, off, strtod)
    ensures s[off] == OPEN_BRACKET ==> ParseValueAt(s, off, depth, strtod) == ParseArrayAt(s, off, depth, strtod)
    ensures s[off] == OPEN_BRACE ==> ParseValueAt(s, off, depth, strtod) == ParseObjectAt(s, off, depth, strtod)
    ensures s[off] == QUOTE && ParseStringAt(s, off).Ok? ==>
              ParseValueAt(s, off, depth, strtod) == Ok(String(ParseStringAt(s, off).value), ParseStringAt(s, off).next)
    ensures s[off] == QUOTE && ParseStringAt(s, off).Fail? ==> ParseValueAt(s, off, depth, strtod) == Fail
  {
    hide Conforms, ParseNumberAt, ParseArrayAt, ParseObjectAt, ParseStringAt;
    if At(s, off, NULL_TEXT) {
      AtByte(s, off, NULL_TEXT, 0);
    }
    if At(s, off, FALSE_TEXT) {
      AtByte(s, off, FALSE_TEXT, 0);
    }
    if At(s, off, TRUE_TEXT) {
      AtByte(s, off, TRUE_TEXT, 0);
    }
  }

  // What parsing a value of this nesting at this depth must return.
  function Expected<T>(legible: bool, v: T, nesting: nat, depth: int, next: nat): Parsed<T> {
    if legible && depth + nesting <= NESTING_LIMIT then Ok(v, next) else Fail
  }

  // ----- Whatever is grammatical is accepted with its meaning -----

  lemma WordParses(s: bytes, off: nat, v: Value, depth: int, strtod: Strtod)
    requires off <= |s| && At(s, off, WordText(v)) && (v.Null? || v.False? || v.True?)
    ensures ParseValueAt(s, off, depth, strtod) == Ok(v, off + |WordText(v)|)
  {
    hide Conforms, ParseNumberAt, ParseArrayAt, ParseObjectAt, ParseStringAt;
    AtByte(s, off, WordText(v), 0);
    if At(s, off, NULL_TEXT) {
      AtByte(s, off, NULL_TEXT, 0);
    }
    if At(s, off, FALSE_TEXT) {
      AtByte(s, off, FALSE_TEXT, 0);
    }
  }

  lemma LiteralParses(s: bytes, off: nat, body: bytes)
    requires At(s, off, InQuotes(body)) && Closed(body)
    ensures off < |s| && ParseStringAt(s, off)
            == if Decodable(body) then Ok(TextOf(body), off + |InQuotes(body)|) else Fail
  {
    hide At, ScanEnd, Unescape;
    AtConcat(s, off, [QUOTE], body + [QUOTE]);
    AtByte(s, off, [QUOTE], 0);
    ReadingIsLocal(s, off + 1, body);
  }

  lemma NumeralParses(s: bytes, off: nat, token: bytes, strtod: Strtod)
    requires At(s, off, token) && WholeNumeral(token, strtod) && Ended(s, off + |token|)
    ensures ParseNumberAt(s, off, strtod) == Ok(Meaning(Numeral(token), strtod), off + |token|)
  {
    TokenEnds(s, off, token);
  }

  // A written value standing at off in s is parsed to its meaning, or rejected for a string in it or for its depth.
  // Only a number may not be followed by a byte that could continue it.
  lemma {:induction false} ValueParses(s: bytes, off: nat, t: Syntax, depth: int, strtod: Strtod)
    requires Delimited(t, strtod) && depth <= NESTING_LIMIT
    requires At(s, off, Write(t)) && (t.Numeral? ==> Ended(s, off + |Write(t)|))
    ensures off <= |s| && ParseValueAt(s, off, depth, strtod)
            == Expected(Legible(t), Meaning(t, strtod), Nesting(Meaning(t, strtod)), depth, off + |Write(t)|)
    decreases t, 0
  {
    hide Conforms, At, ParseValueAt, ParseArrayAt, ParseObjectAt, ParseStringAt, ParseNumberAt, Closed, Decodable,
        TextOf, WholeNumeral;
    WriteStarts(t, strtod);
    AtByte(s, off, Write(t), 0);
    Dispatch(s, off, depth, strtod);
    match t {
      case Word(v) => WordParses(s, off, v, depth, strtod);
      case Numeral(token) => NumeralValueParses(s, off, t, depth, strtod);
      case Literal(body) => LiteralParses(s, off, body);
      case List(gap, es) => ListParses(s, off, t, depth, strtod);
      case Record(gap, es) => RecordParses(s, off, t, depth, strtod);
    }
  }

  lemma NumeralValueParses(s: bytes, off: nat, t: Syntax, depth: int, strtod: Strtod)
    requires t.Numeral? && Delimited(t, strtod) && depth <= NESTING_LIMIT
    requires At(s, off, Write(t)) && Ended(s, off + |Write(t)|)
    ensures off < |s| && ParseValueAt(s, off, depth, strtod)
            == Expected(Legible(t), Meaning(t, strtod), Nesting(Meaning(t, strtod)), depth, off + |Write(t)|)
  {
    hide Conforms, ParseValueAt, ParseArrayAt, ParseObjectAt, ParseStringAt, ParseNumberAt;
    AtByte(s, off, t.token, 0);
    Dispatch(s, off, depth, strtod);
    NumeralParses(s, off, t.token, strtod);
  }

  lemma {:induction false} ListParses(s: bytes, off: nat, t: Syntax, depth: int, strtod: Strtod)
    requires t.List? && Delimited(t, strtod) && depth <= NESTING_LIMIT
    requires At(s, off, Write(t)) && off < |s|
    ensures ParseArrayAt(s, off, depth, strtod)
            == Expected(Legible(t), Meaning(t, strtod), Nesting(Meaning(t, strtod)), depth, off + |Write(t)|)
    decreases t, -1
  {
    hide Conforms, At, ParseItemsAt, Skip, WriteElements, MeaningOfElements, NestingOfItems, Delimited, Blank;
    ListParts(t, strtod);
    var gap, es := t.gap, t.elements;
    AtConcat(s, off, [OPEN_BRACKET], gap + (WriteElements(es) + [CLOSE_BRACKET]));
    if es == [] {
      NoElements(strtod);
      assert [] + [CLOSE_BRACKET] == [CLOSE_BRACKET];
      SkipTo(s, off + 1, gap, [CLOSE_BRACKET]);
    } else {
      FirstElement(s, off + 1, gap, es, [CLOSE_BRACKET], strtod);
      if depth < NESTING_LIMIT {
        ElementsParse(s, off + 1, gap, es, depth + 1, strtod);
        ItemsFromSkip(s, off + 1, depth + 1, strtod);
      }
    }
  }

  lemma ListParts(t: Syntax, strtod: Strtod)
    requires t.List? && Delimited(t, strtod)
    ensures Blank(t.gap) && DelimitedElements(t.elements, strtod)
  {
  }

  lemma NoElements(strtod: Strtod)
    ensures WriteElements([]) == [] && MeaningOfElements([], strtod) == [] && DelimitedElements([], strtod)
    ensures Nesting(Array([])) == 1
  {
  }

  lemma SkipTwice(s: bytes, i: nat)
    requires i <= |s|
    ensures Skip(s, Skip(s, i)) == Skip(s, i)
  {
  }

  lemma ItemsFromSkip(s: bytes, i: nat, depth: int, strtod: Strtod)
    requires i < |s|
    ensures ParseItemsAt(s, Skip(s, i), depth, strtod) == ParseItemsAt(s, i, depth, strtod)
  {
    hide Skip, Conforms, ParseValueAt;
    SkipTwice(s, i);
  }

  lemma BlankConcat(a: bytes, b: bytes)
    requires Blank(a) && Blank(b)
    ensures Blank(a + b)
  {
  }

  // Skipping the white space in front of the first element stops at the first byte of its value.
  lemma FirstElement(s: bytes, p: nat, gap: bytes, es: seq<Element>, close: bytes, strtod: Strtod)
    requires es != [] && Blank(gap) && DelimitedElements(es, strtod) && At(s, p, gap + (WriteElements(es) + close))
    ensures Skip(s, p) < |s| && StartsValue(s[Skip(s, p)])
  {
    hide At, Skip, Write, Conforms, Delimited;
    var blank, value := gap + es[0].before, Write(es[0].item);
    var rest := es[0].after + MoreElements(es) + close;
    WriteStarts(es[0].item, strtod);
    BlankConcat(gap, es[0].before);
    assert gap + (WriteElements(es) + close) == blank + (value + rest) by {
      hide MoreElements, Blank, StartsValue;
    }
    SkipTo(s, p, blank, value + rest);
  }

  // What parsing these elements at this depth must return.
  function ExpectedElements(es: seq<Element>, depth: int, next: nat, strtod: Strtod): Parsed<seq<Value>> {
    var values := MeaningOfElements(es, strtod);
    Expected(LegibleElements(es), values, NestingOfItems(values), depth, next)
  }

  // The elements of a list after some white space, up to its closing bracket.
  lemma {:induction false} ElementsParse(s: bytes, p: nat, gap: bytes, es: seq<Element>, depth: int, strtod: Strtod)
    requires es != [] && Blank(gap) && DelimitedElements(es, strtod) && depth <= NESTING_LIMIT
    requires At(s, p, gap + (WriteElements(es) + [CLOSE_BRACKET]))
    ensures p <= |s|
    ensures ParseItemsAt(s, p, depth, strtod)
        == ExpectedElements(es, depth, p + |gap| + |WriteElements(es)| + 1, strtod)
    decreases es, 1
  {
    hide Conforms, At, Skip, Write, ParseValueAt, Meaning, Nesting, Delimited, Blank, WriteElements, DelimitedElements,
        Ended;
    var e := es[0];
    var q := p + |gap| + |e.before|;
    var c := q + |Write(e.item)| + |e.after|;
    ElementPlaces(s, p, gap, es, strtod);
    ValueParses(s, q, e.item, depth, strtod);
    FirstMeaning(es, strtod);
    if |es| > 1 {
      EmptyBlank();
      ElementsParse(s, c + 1, [], es[1..], depth, strtod);
    }
  }

  // Where the parts of the first element stand.
  lemma ElementPlaces(s: bytes, p: nat, gap: bytes, es: seq<Element>, strtod: Strtod)
    requires es != [] && Blank(gap) && DelimitedElements(es, strtod)
    requires At(s, p, gap + (WriteElements(es) + [CLOSE_BRACKET]))
    ensures Delimited(es[0].item, strtod) && DelimitedElements(es[1..], strtod)
    ensures var q := p + |gap| + |es[0].before|; var end := q + |Write(es[0].item)|; var c := end + |es[0].after|;
            && end <= c < |s| && Skip(s, p) == q && At(s, q, Write(es[0].item)) && Ended(s, end) && Skip(s, end) == c
            && s[c] == (if |es| == 1 then CLOSE_BRACKET else COMMA)
            && (|es| == 1 ==> c + 1 == p + |gap| + |WriteElements(es)| + 1)
            && (|es| > 1 ==> At(s, c + 1, [] + (WriteElements(es[1..]) + [CLOSE_BRACKET]))
                             && c + 1 + |WriteElements(es[1..])| == p + |gap| + |WriteElements(es)|)
  {
    hide Conforms, At, Skip, Write, Delimited, Blank, WriteElements, StartsValue, NumberByte;
    var e, tail := es[0], AfterElement(es);
    ElementParts(gap, es, strtod);
    WriteStarts(e.item, strtod);
    Surrounded(s, p, gap + e.before, Write(e.item), e.after, tail);
    if |es| > 1 {
      AtConcat(s, p + |gap| + |e.before| + |Write(e.item)| + |e.after|, [COMMA],
          [] + (WriteElements(es[1..]) + [CLOSE_BRACKET]));
    }
  }

  // A value between white space, followed by a byte that ends it.
  lemma Surrounded(s: bytes, p: nat, before: bytes, value: bytes, after: bytes, tail: bytes)
    requires At(s, p, before + (value + (after + tail))) && Blank(before) && Blank(after)
    requires value != [] && value[0] > 32 && tail != [] && tail[0] > 32 && !NumberByte(tail[0])
    ensures var q := p + |before|; var end := q + |value|; var c := end + |after|;
            && c < |s| && Skip(s, p) == q && At(s, q, value) && Ended(s, end) && Skip(s, end) == c && s[c] == tail[0]
                && At(s, c, tail)
  {
    hide At, Skip, Blank, NumberByte, Ended;
    SkipTo(s, p, before, value + (after + tail));
    AtConcat(s, p + |before|, value, after + tail);
    AfterValue(s, p + |before| + |value|, after, tail);
  }

  lemma EmptyBlank()
    ensures Blank([])
  {
  }

  lemma FirstMeaning(es: seq<Element>, strtod: Strtod)
    requires es != []
    ensures MeaningOfElements(es, strtod) == [Meaning(es[0].item, strtod)] + MeaningOfElements(es[1..], strtod)
    ensures |es| == 1 ==> MeaningOfElements(es, strtod) == [Meaning(es[0].item, strtod)]
    ensures LegibleElements(es) == (Legible(es[0].item) && LegibleElements(es[1..]))
    ensures NestingOfItems(MeaningOfElements(es, strtod))
            == Max(Nesting(Meaning(es[0].item, strtod)), NestingOfItems(MeaningOfElements(es[1..], strtod)))
  {
    hide Conforms, Meaning, Nesting, Legible;
    var rest := MeaningOfElements(es[1..], strtod);
    assert ([Meaning(es[0].item, strtod)] + rest)[1..] == rest;
  }

  // What follows the value and the white space of the first element, up to the closing bracket.
  function AfterElement(es: seq<Element>): bytes
    requires es != []
  {
    if |es| == 1 then [CLOSE_BRACKET] else [COMMA] + ([] + (WriteElements(es[1..]) + [CLOSE_BRACKET]))
  }

  lemma ElementParts(gap: bytes, es: seq<Element>, strtod: Strtod)
    requires es != [] && Blank(gap) && DelimitedElements(es, strtod)
    ensures Blank(gap + es[0].before) && Delimited(es[0].item, strtod) && Blank(es[0].after)
    ensures DelimitedElements(es[1..], strtod)
    ensures gap + (WriteElements(es) + [CLOSE_BRACKET])
            == (gap + es[0].before) + (Write(es[0].item) + (es[0].after + AfterElement(es)))
    ensures var tail := AfterElement(es);
            && tail[0] > 32 && !NumberByte(tail[0])
            && tail[0] == (if |es| == 1 then CLOSE_BRACKET else COMMA)
    ensures |WriteElements(es)| == |es[0].before| + |Write(es[0].item)| + |es[0].after|
        + (if |es| == 1 then 0 else 1 + |WriteElements(es[1..])|)
  {
    hide Conforms, Write, Delimited;
    BlankConcat(gap, es[0].before);
    CloseElements(es);
    hide MoreElements, AfterElement, Blank, DelimitedElements, NumberByte;
    Regroup(gap, es[0].before, Write(es[0].item), es[0].after, MoreElements(es), [CLOSE_BRACKET]);
  }

  lemma CloseElements(es: seq<Element>)
    requires es != []
    ensures MoreElements(es) + [CLOSE_BRACKET] == AfterElement(es)
    ensures |MoreElements(es)| == if |es| == 1 then 0 else 1 + |WriteElements(es[1..])|
  {
    hide WriteElements;
    if |es| > 1 {
      var w := WriteElements(es[1..]);
      assert [COMMA] + w + [CLOSE_BRACKET] == [COMMA] + ([] + (w + [CLOSE_BRACKET]));
    }
  }

  lemma Regroup(g: bytes, b: bytes, v: bytes, a: bytes, m: bytes, c: bytes)
    ensures g + ((b + (v + (a + m))) + c) == (g + b) + (v + (a + (m + c)))
  {
    assert (b + (v + (a + m))) + c == b + (v + (a + (m + c)));
    assert g + (b + (v + (a + (m + c)))) == (g + b) + (v + (a + (m + c)));
  }

  // Behind a value: white space, then a byte that ends it.
  lemma AfterValue(s: bytes, i: nat, w: bytes, tail: bytes)
    requires At(s, i, w + tail) && Blank(w) && tail != [] && tail[0] > 32 && !NumberByte(tail[0])
    ensures i <= |s| && Ended(s, i) && i + |w| < |s| && Skip(s, i) == i + |w| && s[i + |w|] == tail[0]
        && At(s, i + |w|, tail)
  {
    hide Skip;
    SkipTo(s, i, w, tail);
    NotNumber(w, tail);
    AtByte(s, i, w + tail, 0);
  }

  lemma {:induction false} RecordParses(s: bytes, off: nat, t: Syntax, depth: int, strtod: Strtod)
    requires t.Record? && Delimited(t, strtod) && depth <= NESTING_LIMIT
    requires At(s, off, Write(t)) && off < |s|
    ensures ParseObjectAt(s, off, depth, strtod)
            == Expected(Legible(t), Meaning(t, strtod), Nesting(Meaning(t, strtod)), depth, off + |Write(t)|)
    decreases t, -1
  {
    hide Conforms, At, ParseMembersAt, Skip, WriteEntries, MeaningOfEntries, NestingOfMembers, Delimited, Blank;
    RecordParts(t, strtod);
    var gap, es := t.gap, t.entries;
    AtConcat(s, off, [OPEN_BRACE], gap + (WriteEntries(es) + [CLOSE_BRACE]));
    if es == [] {
      NoEntries(strtod);
      assert [] + [CLOSE_BRACE] == [CLOSE_BRACE];
      SkipTo(s, off + 1, gap, [CLOSE_BRACE]);
    } else {
      FirstEntry(s, off + 1, gap, es, strtod);
      if depth < NESTING_LIMIT {
        EntriesParse(s, off + 1, gap, es, depth + 1, strtod);
        MembersFromSkip(s, off + 1, depth + 1, strtod);
      }
    }
  }

  lemma RecordParts(t: Syntax, strtod: Strtod)
    requires t.Record? && Delimited(t, strtod)
    ensures Blank(t.gap) && DelimitedEntries(t.entries, strtod)
  {
  }

  lemma NoEntries(strtod: Strtod)
    ensures WriteEntries([]) == [] && MeaningOfEntries([], strtod) == [] && DelimitedEntries([], strtod)
    ensures Nesting(Object([])) == 1
  {
  }

  lemma MembersFromSkip(s: bytes, i: nat, depth: int, strtod: Strtod)
    requires i < |s|
    ensures ParseMembersAt(s, Skip(s, i), depth, strtod) == ParseMembersAt(s, i, depth, strtod)
  {
    hide Skip, Conforms, ParseStringAt, ParseValueAt;
    SkipTwice(s, i);
  }

  // What follows the value and the white space of the first entry, up to the closing brace.
  function AfterEntry(es: seq<Entry>): bytes
    requires es != []
  {
    if |es| == 1 then [CLOSE_BRACE] else [COMMA] + ([] + (WriteEntries(es[1..]) + [CLOSE_BRACE]))
  }

  lemma EntryParts(gap: bytes, es: seq<Entry>, strtod: Strtod)
    requires es != [] && Blank(gap) && DelimitedEntries(es, strtod)
    ensures var e := es[0]; var bare := e.(before := gap + e.before);
            && DelimitedEntry(bare, strtod) && Blank(e.after) && DelimitedEntries(es[1..], strtod)
            && gap + (WriteEntries(es) + [CLOSE_BRACE]) == WriteEntry(bare) + (e.after + AfterEntry(es))
            && |WriteEntries(es)| + |gap|
                == |WriteEntry(bare)| + |e.after| + (if |es| == 1 then 0 else 1 + |WriteEntries(es[1..])|)
    ensures var tail := AfterEntry(es);
            && tail[0] > 32 && !NumberByte(tail[0])
            && tail[0] == (if |es| == 1 then CLOSE_BRACE else COMMA)
  {
    hide Conforms, Write, Delimited, Closed, Decodable, WriteEntry;
    BlankConcat(gap, es[0].before);
    EarlierEntry(gap, es[0]);
    EntryText(gap, es);
  }

  lemma EntryText(gap: bytes, es: seq<Entry>)
    requires es != []
    ensures gap + (WriteEntries(es) + [CLOSE_BRACE]) == (gap + WriteEntry(es[0])) + (es[0].after + AfterEntry(es))
    ensures |WriteEntries(es)|
        == |WriteEntry(es[0])| + |es[0].after| + (if |es| == 1 then 0 else 1 + |WriteEntries(es[1..])|)
  {
    hide WriteEntry;
    CloseEntries(es);
    hide MoreEntries, AfterEntry;
    RegroupEntry(gap, WriteEntry(es[0]), es[0].after, MoreEntries(es), [CLOSE_BRACE]);
  }

  lemma RegroupEntry(g: bytes, e: bytes, a: bytes, m: bytes, c: bytes)
    ensures g + ((e + (a + m)) + c) == (g + e) + (a + (m + c))
  {
    assert (e + (a + m)) + c == e + (a + (m + c));
  }

  lemma CloseEntries(es: seq<Entry>)
    requires es != []
    ensures MoreEntries(es) + [CLOSE_BRACE] == AfterEntry(es)
    ensures |MoreEntries(es)| == if |es| == 1 then 0 else 1 + |WriteEntries(es[1..])|
  {
    hide WriteEntries;
    if |es| > 1 {
      var w := WriteEntries(es[1..]);
      assert [COMMA] + w + [CLOSE_BRACE] == [COMMA] + ([] + (w + [CLOSE_BRACE]));
    }
  }

  // White space in front of an entry counts as its own.
  lemma EarlierEntry(gap: bytes, e: Entry)
    ensures gap + WriteEntry(e) == WriteEntry(e.(before := gap + e.before))
  {
    hide Write, InQuotes;
    var rest := InQuotes(e.key) + (e.beforeColon + ([COLON] + (e.afterColon + Write(e.item))));
    assert gap + (e.before + rest) == (gap + e.before) + rest;
  }

  lemma FirstEntry(s: bytes, p: nat, gap: bytes, es: seq<Entry>, strtod: Strtod)
    requires es != [] && Blank(gap) && DelimitedEntries(es, strtod)
        && At(s, p, gap + (WriteEntries(es) + [CLOSE_BRACE]))
    ensures ByteAt(s, Skip(s, p), QUOTE)
  {
    hide At, Skip, Conforms, WriteEntries, Write, Blank, DelimitedEntries;
    EntryParts(gap, es, strtod);
    var bare := es[0].(before := gap + es[0].before);
    var tail := AfterEntry(es);
    AtFront(s, p, WriteEntry(bare), es[0].after + tail);
    var rest := InQuotes(bare.key) + (bare.beforeColon + ([COLON] + (bare.afterColon + Write(bare.item))));
    SkipTo(s, p, bare.before, rest);
  }

  // What parsing these entries at this depth must return.
  function ExpectedEntries(es: seq<Entry>, depth: int, next: nat, strtod: Strtod): Parsed<seq<Member>> {
    var ms := MeaningOfEntries(es, strtod);
    Expected(LegibleEntries(es), ms, NestingOfMembers(ms), depth, next)
  }

  // A member that is parsed as expected, and what follows it.
  lemma EntryThenMore(s: bytes, p: nat, es: seq<Entry>, q: nat, c: nat, end: nat, depth: int, strtod: Strtod)
    requires es != [] && p <= |s| && q <= c < |s| && Skip(s, q) == c
    requires var m := Member(TextOf(es[0].key), Meaning(es[0].item, strtod));
             ParseMemberAt(s, p, depth, strtod) == Expected(LegibleEntry(es[0]), m, Nesting(m.value), depth, q)
    requires if |es| == 1 then s[c] == CLOSE_BRACE && end == c + 1
             else
               && s[c] == COMMA
               && ParseMembersAt(s, c + 1, depth, strtod) == ExpectedEntries(es[1..], depth, end, strtod)
    ensures ParseMembersAt(s, p, depth, strtod) == ExpectedEntries(es, depth, end, strtod)
  {
    hide Conforms, Skip, ParseMemberAt, Meaning, Nesting, TextOf, LegibleEntry;
    FirstMember(es, strtod);
  }

  lemma {:induction false} EntriesParse(s: bytes, p: nat, gap: bytes, es: seq<Entry>, depth: int, strtod: Strtod)
    requires es != [] && Blank(gap) && DelimitedEntries(es, strtod) && depth <= NESTING_LIMIT
    requires At(s, p, gap + (WriteEntries(es) + [CLOSE_BRACE]))
    ensures p <= |s|
    ensures ParseMembersAt(s, p, depth, strtod)
        == ExpectedEntries(es, depth, p + |gap| + |WriteEntries(es)| + 1, strtod)
    decreases es, 2
  {
    hide Conforms, At, Skip, WriteEntry, ParseMemberAt, ParseMembersAt, Meaning, Nesting, DelimitedEntry, Blank,
      WriteEntries, NumberByte, TextOf, ExpectedEntries, LegibleEntry;
    var e := es[0];
    var bare := e.(before := gap + e.before);
    var tail := AfterEntry(es);
    EntryParts(gap, es, strtod);
    AtConcat(s, p, WriteEntry(bare), e.after + tail);
    var q := p + |WriteEntry(bare)|;
    AfterValue(s, q, e.after, tail);
    EntryParses(s, p, bare, e, depth, strtod);
    var c := q + |e.after|;
    if |es| > 1 {
      AtConcat(s, c, [COMMA], [] + (WriteEntries(es[1..]) + [CLOSE_BRACE]));
      EmptyBlank();
      EntriesParse(s, c + 1, [], es[1..], depth, strtod);
    }
    EntryThenMore(s, p, es, q, c, p + |gap| + |WriteEntries(es)| + 1, depth, strtod);
  }

  lemma FirstMember(es: seq<Entry>, strtod: Strtod)
    requires es != []
    ensures var m := Member(TextOf(es[0].key), Meaning(es[0].item, strtod)); var ms := MeaningOfEntries(es, strtod);
            && ms == [m] + MeaningOfEntries(es[1..], strtod) && (|es| == 1 ==> ms == [m])
            && LegibleEntries(es) == (LegibleEntry(es[0]) && LegibleEntries(es[1..]))
            && NestingOfMembers(ms) == Max(Nesting(m.value), NestingOfMembers(MeaningOfEntries(es[1..], strtod)))
  {
    hide Conforms, Meaning, TextOf, Nesting;
    var rest := MeaningOfEntries(es[1..], strtod);
    assert ([Member(TextOf(es[0].key), Meaning(es[0].item, strtod))] + rest)[1..] == rest;
  }

  // e is the written entry, bare the same with more white space in front.
  lemma {:induction false} EntryParses(s: bytes, p: nat, bare: Entry, e: Entry, depth: int, strtod: Strtod)
    requires bare == e.(before := bare.before) && DelimitedEntry(bare, strtod) && depth <= NESTING_LIMIT
    requires At(s, p, WriteEntry(bare)) && Ended(s, p + |WriteEntry(bare)|)
    ensures p <= |s|
    ensures var m := Member(TextOf(e.key), Meaning(e.item, strtod));
            ParseMemberAt(s, p, depth, strtod)
                == Expected(LegibleEntry(e), m, Nesting(m.value), depth, p + |WriteEntry(bare)|)
    decreases e, 1
  {
    hide Conforms, At, Skip, Write, WriteEntry, DelimitedEntry, ParseValueAt, ParseStringAt, Meaning, Nesting,
        Delimited, TextOf, Closed, Decodable, InQuotes, Ended;
    EntryPlaces(s, p, bare, strtod);
    var k := p + |bare.before|;
    var d := k + |InQuotes(e.key)| + |e.beforeColon| + 1;
    LiteralParses(s, k, e.key);
    ValueParses(s, d + |e.afterColon|, e.item, depth, strtod);
  }

  // Where the parts of an entry stand.
  lemma EntryPlaces(s: bytes, p: nat, e: Entry, strtod: Strtod)
    requires DelimitedEntry(e, strtod) && At(s, p, WriteEntry(e))
    ensures Closed(e.key) && Delimited(e.item, strtod)
    ensures var k := p + |e.before|; var c := k + |InQuotes(e.key)|; var d := c + |e.beforeColon| + 1;
            var q := d + |e.afterColon|;
            && p < |s| && k <= c < d <= q < |s| && q + |Write(e.item)| == p + |WriteEntry(e)|
            && Skip(s, p) == k && At(s, k, InQuotes(e.key)) && Skip(s, c) == d - 1 && s[d - 1] == COLON
            && Skip(s, d) == q && At(s, q, Write(e.item))
  {
    hide Conforms, At, Skip, Write, Delimited, Blank, NumberByte, Closed, Decodable, InQuotes, StartsValue;
    var value := Write(e.item);
    var afterKey := e.beforeColon + ([COLON] + (e.afterColon + value));
    QuotesStart(e.key);
    SkipTo(s, p, e.before, InQuotes(e.key) + afterKey);
    var k := p + |e.before|;
    AtConcat(s, k, InQuotes(e.key), afterKey);
    var c := k + |InQuotes(e.key)|;
    SkipTo(s, c, e.beforeColon, [COLON] + (e.afterColon + value));
    var d := c + |e.beforeColon| + 1;
    AtConcat(s, d - 1, [COLON], e.afterColon + value);
    WriteStarts(e.item, strtod);
    SkipTo(s, d, e.afterColon, value);
  }

  lemma QuotesStart(body: bytes)
    ensures InQuotes(body) != [] && InQuotes(body)[0] == QUOTE
  {
  }
}
