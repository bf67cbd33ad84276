// Every printed tree is a text of RFC 8259 that means the tree, so parsing it, formatted or not, gives the tree back
// exactly when it is not nested too deeply.
module JsonRoundTrip {
  import opened Bytes
  import opened JsonValue
  import opened JsonNumber
  import opened JsonString
  import opened StringGrammar
  import opened JsonText
  import opened JsonGrammar
  import opened JsonReading

  // ----- How a tree is written when it is printed -----

  function Shape(v: Value, format: bool, depth: nat): Syntax
    decreases v, 0
  {
    match v
    case Number(n) => Numeral(PrintInt(n))
    case String(t) => Literal(Escape(t))
    case Array(items) => List([], Elements(items, format, depth + 1, []))
    case Object(ms) =>
      Record(if ms == [] then LineStart(format, depth) else [], Entries(ms, format, depth + 1))
    case _ => Word(v)
  }

  // In formatted output a line break and the indentation.
  function LineStart(format: bool, depth: nat): bytes {
    IfFormatted(format, [NEWLINE]) + IfFormatted(format, Tabs(depth))
  }

  function Elements(items: seq<Value>, format: bool, depth: nat, before: bytes): (es: seq<Element>)
    ensures |es| == |items|
    decreases items, 1
  {
    if items == [] then []
    else
      [Element(before, Shape(items[0], format, depth), [])]
      + Elements(items[1..], format, depth, IfFormatted(format, [SPACE]))
  }

  function Entries(ms: seq<Member>, format: bool, depth: nat): (es: seq<Entry>)
    requires depth > 0
    ensures |es| == |ms|
    decreases ms, 1
  {
    if ms == [] then []
    else
      [Entry(LineStart(format, depth), Escape(ms[0].key), [], IfFormatted(format, [TAB]),
          Shape(ms[0].value, format, depth),
             if |ms| == 1 then LineStart(format, depth - 1) else [])]
      + Entries(ms[1..], format, depth)
  }

  // ----- The shape writes what is printed -----

  lemma {:induction false} ShapeWrites(v: Value, format: bool, depth: nat)
    ensures Write(Shape(v, format, depth)) == Print(v, format, depth)
    decreases v, 0
  {
    match v {
      case String(t) => assert Quoted(t) == InQuotes(Escape(t));
      case Array(items) =>
        ElementsWrite(items, format, depth + 1, []);
        ListWrites(Elements(items, format, depth + 1, []), PrintItems(items, format, depth + 1));
      case Object(ms) =>
        EntriesWrite(ms, format, depth + 1);
        RecordWrites(v, format, depth);
      case _ =>
    }
  }

  lemma ListWrites(es: seq<Element>, items: bytes)
    requires WriteElements(es) == items
    ensures Write(List([], es)) == [OPEN_BRACKET] + items + [CLOSE_BRACKET]
  {
    hide WriteElements;
    assert [OPEN_BRACKET] + ([] + (items + [CLOSE_BRACKET])) == [OPEN_BRACKET] + items + [CLOSE_BRACKET];
  }

  lemma RecordWrites(v: Value, format: bool, depth: nat)
    requires v.Object?
    requires v.members != [] ==> WriteEntries(Entries(v.members, format, depth + 1))
                                 == IfFormatted(format, [NEWLINE])
                                     + (PrintMembers(v.members, format, depth + 1) + IfFormatted(format, Tabs(depth)))
    ensures Write(Shape(v, format, depth)) == Print(v, format, depth)
  {
    hide IfFormatted, Tabs;
    var nl, tabs, body := IfFormatted(format, [NEWLINE]), IfFormatted(format, Tabs(depth)),
        PrintMembers(v.members, format, depth + 1);
    var es := Entries(v.members, format, depth + 1);
    assert Print(v, format, depth) == [OPEN_BRACE] + nl + body + tabs + [CLOSE_BRACE];
    assert v.members == [] ==> body == [] && WriteEntries(es) == [];
    hide PrintMembers, WriteEntries, Entries, Print;
    RecordPieces(nl, body, tabs);
  }

  lemma RecordPieces(nl: bytes, body: bytes, tabs: bytes)
    ensures [OPEN_BRACE] + ([] + ((nl + (body + tabs)) + [CLOSE_BRACE]))
        == [OPEN_BRACE] + nl + body + tabs + [CLOSE_BRACE]
    ensures [OPEN_BRACE] + ((nl + tabs) + ([] + [CLOSE_BRACE])) == [OPEN_BRACE] + nl + [] + tabs + [CLOSE_BRACE]
  {
    assert (nl + (body + tabs)) + [CLOSE_BRACE] == nl + body + tabs + [CLOSE_BRACE];
  }

  lemma {:induction false} ElementsWrite(items: seq<Value>, format: bool, depth: nat, before: bytes)
    ensures WriteElements(Elements(items, format, depth, before))
            == (if items == [] then [] else before + PrintItems(items, format, depth))
    decreases items, 1
  {
    hide Print, Write, Shape;
    if items != [] {
      var es := Elements(items, format, depth, before);
      ShapeWrites(items[0], format, depth);
      ElementsWrite(items[1..], format, depth, IfFormatted(format, [SPACE]));
      assert es[1..] == Elements(items[1..], format, depth, IfFormatted(format, [SPACE]));
      FirstItemText(before, Print(items[0], format, depth), IfFormatted(format, [SPACE]),
          PrintItems(items[1..], format, depth));
    }
  }

  lemma FirstItemText(b: bytes, p: bytes, space: bytes, rest: bytes)
    ensures b + (p + ([] + ([COMMA] + (space + rest)))) == b + (p + ([COMMA] + space) + rest)
    ensures b + (p + ([] + [])) == b + p
  {
  }

  lemma {:induction false} EntriesWrite(ms: seq<Member>, format: bool, depth: nat)
    requires depth > 0
    ensures ms != [] ==> WriteEntries(Entries(ms, format, depth))
                         == IfFormatted(format, [NEWLINE])
                             + (PrintMembers(ms, format, depth) + IfFormatted(format, Tabs(depth - 1)))
    decreases ms, 1
  {
    hide Print, Write, Shape, WriteEntry, KeyText, IfFormatted, Tabs, LineStart;
    if ms != [] {
      var es := Entries(ms, format, depth);
      var m := ms[0];
      ShapeWrites(m.value, format, depth);
      EntryWrites(es[0], m, format, depth);
      EntriesWrite(ms[1..], format, depth);
      assert es[1..] == Entries(ms[1..], format, depth);
      EntriesText(ms, es, format, depth);
    }
  }

  lemma EntryWrites(e: Entry, m: Member, format: bool, depth: nat)
    requires e.before == LineStart(format, depth) && e.key == Escape(m.key) && e.beforeColon == []
        && e.afterColon == IfFormatted(format, [TAB])
    requires Write(e.item) == Print(m.value, format, depth)
    ensures WriteEntry(e)
        == IfFormatted(format, [NEWLINE]) + (KeyText(m.key, format, depth) + Print(m.value, format, depth))
  {
    hide Print, Write, IfFormatted, Tabs, Escape;
    var nl, tabs, tab := IfFormatted(format, [NEWLINE]), IfFormatted(format, Tabs(depth)), IfFormatted(format, [TAB]);
    assert Quoted(m.key) == InQuotes(e.key);
    hide Quoted, InQuotes;
    EntryPieces(nl, tabs, Quoted(m.key), tab, Print(m.value, format, depth));
  }

  lemma EntryPieces(nl: bytes, tabs: bytes, key: bytes, tab: bytes, value: bytes)
    ensures (nl + tabs) + (key + ([] + ([COLON] + (tab + value)))) == nl + ((tabs + key + [COLON] + tab) + value)
  {
    assert tabs + (key + ([COLON] + (tab + value))) == (tabs + key + [COLON] + tab) + value;
  }

  lemma EntriesText(ms: seq<Member>, es: seq<Entry>, format: bool, depth: nat)
    requires depth > 0 && ms != [] && |es| == |ms|
    requires WriteEntry(es[0])
        == IfFormatted(format, [NEWLINE]) + (KeyText(ms[0].key, format, depth) + Print(ms[0].value, format, depth))
    requires es[0].after == if |ms| == 1 then LineStart(format, depth - 1) else []
    requires |ms| > 1 ==>
               WriteEntries(es[1..])
               == IfFormatted(format, [NEWLINE])
                  + (PrintMembers(ms[1..], format, depth) + IfFormatted(format, Tabs(depth - 1)))
    ensures WriteEntries(es)
        == IfFormatted(format, [NEWLINE]) + (PrintMembers(ms, format, depth) + IfFormatted(format, Tabs(depth - 1)))
  {
    hide Print, WriteEntry, KeyText, IfFormatted, Tabs;
    var nl, tabs := IfFormatted(format, [NEWLINE]), IfFormatted(format, Tabs(depth - 1));
    var key, value := KeyText(ms[0].key, format, depth), Print(ms[0].value, format, depth);
    if |ms| == 1 {
      assert PrintMembers(ms[1..], format, depth) == [];
      hide PrintMembers;
      LastMemberText(nl, key, value, tabs);
    } else {
      var rest := PrintMembers(ms[1..], format, depth);
      assert PrintMembers(ms, format, depth) == key + value + ([COMMA] + nl) + rest;
      assert WriteEntries(es) == WriteEntry(es[0]) + ([] + ([COMMA] + WriteEntries(es[1..])));
      hide PrintMembers, WriteEntries;
      NextMemberText(nl, key, value, rest, tabs);
    }
  }

  lemma LastMemberText(nl: bytes, key: bytes, value: bytes, tabs: bytes)
    ensures (nl + (key + value)) + ((nl + tabs) + []) == nl + ((key + value + ([] + nl) + []) + tabs)
  {
  }

  lemma NextMemberText(nl: bytes, key: bytes, value: bytes, rest: bytes, tabs: bytes)
    ensures (nl + (key + value)) + ([] + ([COMMA] + (nl + (rest + tabs))))
        == nl + ((key + value + ([COMMA] + nl) + rest) + tabs)
  {
    assert (key + value) + ([COMMA] + (nl + (rest + tabs))) == (key + value + ([COMMA] + nl) + rest) + tabs;
  }

  // ----- The shape belongs to the grammar and means the tree -----

  lemma SpacesAreStandard(format: bool, depth: nat)
    ensures StandardSpace([]) && StandardSpace(IfFormatted(format, [SPACE]))
        && StandardSpace(IfFormatted(format, [TAB]))
    ensures StandardSpace(LineStart(format, depth))
  {
  }

  lemma {:induction false} ShapeIsStandard(v: Value, format: bool, depth: nat)
    ensures Standard(Shape(v, format, depth))
    decreases v, 0
  {
    SpacesAreStandard(format, depth);
    hide LineStart, StandardSpace;
    match v {
      case Number(n) => PrintIntIsStandard(n);
      case String(t) => EscapeIsStandard(t);
      case Array(items) => ElementsAreStandard(items, format, depth + 1, []);
      case Object(ms) => EntriesAreStandard(ms, format, depth + 1);
      case _ =>
    }
  }

  lemma {:induction false} ElementsAreStandard(items: seq<Value>, format: bool, depth: nat, before: bytes)
    requires StandardSpace(before)
    ensures StandardElements(Elements(items, format, depth, before))
    decreases items, 1
  {
    hide Standard, Shape, IfFormatted;
    if items != [] {
      SpacesAreStandard(format, depth);
      ShapeIsStandard(items[0], format, depth);
      ElementsAreStandard(items[1..], format, depth, IfFormatted(format, [SPACE]));
      hide StandardSpace;
      assert Elements(items, format, depth, before)[1..]
          == Elements(items[1..], format, depth, IfFormatted(format, [SPACE]));
    }
  }

  lemma {:induction false} EntriesAreStandard(ms: seq<Member>, format: bool, depth: nat)
    requires depth > 0
    ensures StandardEntries(Entries(ms, format, depth))
    decreases ms, 1
  {
    hide Standard, Shape, IfFormatted, StandardBody, LineStart, StandardSpace;
    if ms != [] {
      SpacesAreStandard(format, depth);
      SpacesAreStandard(format, depth - 1);
      EscapeIsStandard(ms[0].key);
      ShapeIsStandard(ms[0].value, format, depth);
      EntriesAreStandard(ms[1..], format, depth);
      assert Entries(ms, format, depth)[1..] == Entries(ms[1..], format, depth);
    }
  }

  lemma EscapeIsStandard(t: bytes)
    ensures StandardBody(Escape(t))
  {
    EscapeDenotes(t);
    DenotesIsStandard(Escape(t));
  }

  lemma EscapeMeans(t: bytes)
    requires 0 !in t
    ensures Readable(Escape(t)) && TextOf(Escape(t)) == t
  {
    hide Closed, Decodable, Escape, StandardBody, NoLoneSurrogate, Denotes;
    EscapeDenotes(t);
    EscapeIsStandard(t);
    StandardBodyIsRead(Escape(t));
  }

  lemma NumeralMeans(n: int, strtod: Strtod)
    requires INT_MIN <= n <= INT_MAX
    ensures WholeNumeral(PrintInt(n), strtod) && Meaning(Numeral(PrintInt(n)), strtod) == Number(n)
  {
    PrintIntBytes(n);
    assert strtod(PrintInt(n)) == Some(Conversion(n, |PrintInt(n)|));
  }

  lemma LeafMeans(v: Value, format: bool, depth: nat, strtod: Strtod)
    requires WellFormed(v) && !v.Array? && !v.Object?
    ensures Grammatical(Shape(v, format, depth), strtod) && Meaning(Shape(v, format, depth), strtod) == v
  {
    hide Conforms, Closed, Decodable, TextOf, WholeNumeral;
    match v {
      case Number(n) => NumeralMeans(n, strtod);
      case String(t) => EscapeMeans(t);
      case _ =>
    }
  }

  lemma {:induction false} ShapeMeans(v: Value, format: bool, depth: nat, strtod: Strtod)
    requires WellFormed(v)
    ensures Grammatical(Shape(v, format, depth), strtod) && Meaning(Shape(v, format, depth), strtod) == v
    decreases v, 0
  {
    hide Conforms, LineStart, Blank, Delimited, Legible, Meaning;
    BlankSpaces(format, depth);
    match v {
      case Array(items) =>
        ElementsMean(items, format, depth + 1, [], strtod);
        ListOf([], Elements(items, format, depth + 1, []), strtod);
      case Object(ms) =>
        EntriesMean(ms, format, depth + 1, strtod);
        RecordOf(if ms == [] then LineStart(format, depth) else [], Entries(ms, format, depth + 1), strtod);
      case _ => LeafMeans(v, format, depth, strtod);
    }
  }

  lemma BlankSpaces(format: bool, depth: nat)
    ensures Blank([]) && Blank(IfFormatted(format, [SPACE])) && Blank(IfFormatted(format, [TAB]))
        && Blank(LineStart(format, depth))
  {
  }

  lemma {:induction false} ElementsMean(items: seq<Value>, format: bool, depth: nat, before: bytes, strtod: Strtod)
    requires Blank(before) && (forall i :: 0 <= i < |items| ==> WellFormed(items[i]))
    ensures DelimitedElements(Elements(items, format, depth, before), strtod)
        && LegibleElements(Elements(items, format, depth, before))
    ensures MeaningOfElements(Elements(items, format, depth, before), strtod) == items
    decreases items, 1
  {
    hide Conforms, Delimited, Legible, Meaning, Shape, IfFormatted, WellFormed;
    if items != [] {
      BlankSpaces(format, depth);
      ShapeMeans(items[0], format, depth, strtod);
      ElementsMean(items[1..], format, depth, IfFormatted(format, [SPACE]), strtod);
      hide Blank;
      assert Elements(items, format, depth, before)[1..]
          == Elements(items[1..], format, depth, IfFormatted(format, [SPACE]));
      assert [items[0]] + items[1..] == items;
    }
  }

  lemma {:induction false} EntriesMean(ms: seq<Member>, format: bool, depth: nat, strtod: Strtod)
    requires depth > 0 && (forall i :: 0 <= i < |ms| ==> 0 !in ms[i].key && WellFormed(ms[i].value))
    ensures DelimitedEntries(Entries(ms, format, depth), strtod) && LegibleEntries(Entries(ms, format, depth))
    ensures MeaningOfEntries(Entries(ms, format, depth), strtod) == ms
    decreases ms, 1
  {
    hide Conforms, Delimited, Legible, Meaning, Shape, IfFormatted, WellFormed, LineStart, Blank, Closed, Decodable,
        TextOf;
    if ms != [] {
      BlankSpaces(format, depth);
      BlankSpaces(format, depth - 1);
      EscapeMeans(ms[0].key);
      ShapeMeans(ms[0].value, format, depth, strtod);
      EntriesMean(ms[1..], format, depth, strtod);
      assert Entries(ms, format, depth)[1..] == Entries(ms[1..], format, depth);
      assert [ms[0]] + ms[1..] == ms;
    }
  }

  // ----- Main results -----

  // What is printed, formatted or not, is a text of RFC 8259 (on the level of bytes) that means the printed tree.
  lemma PrintIsStandard(v: Value, format: bool, strtod: Strtod) returns (t: Syntax)
    requires WellFormed(v)
    ensures Standard(t) && Write(t) == Print(v, format, 0) && Meaning(t, strtod) == v
  {
    hide Conforms, Standard, Write, Meaning, Print, Shape;
    t := Shape(v, format, 0);
    ShapeWrites(v, format, 0);
    ShapeIsStandard(v, format, 0);
    ShapeMeans(v, format, 0, strtod);
  }

  // cJSON_Parse of cJSON_Print or cJSON_PrintUnformatted: the same tree up to the nesting limit, a failure beyond it.
  lemma PrintThenParse(v: Value, format: bool, strtod: Strtod)
    requires WellFormed(v)
    ensures NoNul(Print(v, format, 0))
    ensures ParseText(Print(v, format, 0), strtod) == if Nesting(v) <= NESTING_LIMIT then Some(v) else None
  {
    hide Conforms, Write, Meaning, Print, Shape, Delimited, Legible, ParseText, Nesting, Standard, NoNul;
    var t, text := Shape(v, format, 0), Print(v, format, 0);
    ShapeWrites(v, format, 0);
    ShapeMeans(v, format, 0, strtod);
    ShapeIsStandard(v, format, 0);
    StandardHasNoNul(t);
    assert text == [] + ([] + (text + []));
    TextParses(text, false, [], t, [], strtod);
  }

  // Both ways of printing a tree determine it, also beyond the depth that can be parsed.
  lemma PrintIsInjective(v: Value, formatV: bool, w: Value, formatW: bool, strtod: Strtod)
    requires WellFormed(v) && WellFormed(w)
    requires Print(v, formatV, 0) == Print(w, formatW, 0)
    ensures v == w
  {
    hide Conforms, Write, Meaning, Print, Shape, Delimited, Legible;
    ShapeWrites(v, formatV, 0);
    ShapeWrites(w, formatW, 0);
    ShapeMeans(v, formatV, 0, strtod);
    ShapeMeans(w, formatW, 0, strtod);
    Unambiguous(Shape(v, formatV, 0), Shape(w, formatW, 0), strtod);
  }

  // ----- Parsed trees can be printed -----

  lemma {:induction false} MeaningIsWellFormed(t: Syntax, strtod: Strtod)
    requires Grammatical(t, strtod)
    ensures WellFormed(Meaning(t, strtod))
    decreases t, 0
  {
    hide Conforms, TextOf, WholeNumeral, Closed, Decodable, Blank;
    match t {
      case Literal(body) => TextHasNoNul(body);
      case List(_, es) => ElementsAreWellFormed(es, strtod);
      case Record(_, es) => EntriesAreWellFormed(es, strtod);
      case _ =>
    }
  }

  lemma TextHasNoNul(body: bytes)
    ensures 0 !in TextOf(body)
  {
  }

  lemma {:induction false} ElementsAreWellFormed(es: seq<Element>, strtod: Strtod)
    requires DelimitedElements(es, strtod) && LegibleElements(es)
    ensures forall i :: 0 <= i < |MeaningOfElements(es, strtod)| ==> WellFormed(MeaningOfElements(es, strtod)[i])
    decreases es, 1
  {
    hide Conforms, WellFormed, Meaning, Delimited, Legible, Blank;
    if es != [] {
      MeaningIsWellFormed(es[0].item, strtod);
      ElementsAreWellFormed(es[1..], strtod);
    }
  }

  lemma {:induction false} EntriesAreWellFormed(es: seq<Entry>, strtod: Strtod)
    requires DelimitedEntries(es, strtod) && LegibleEntries(es)
    ensures WellFormed(Object(MeaningOfEntries(es, strtod)))
    decreases es, 1
  {
    hide Conforms, Meaning, Delimited, Legible, Blank, TextOf;
    if es != [] {
      var first, others := Member(TextOf(es[0].key), Meaning(es[0].item, strtod)), MeaningOfEntries(es[1..], strtod);
      TextHasNoNul(es[0].key);
      MeaningIsWellFormed(es[0].item, strtod);
      EntriesAreWellFormed(es[1..], strtod);
      assert MeaningOfEntries(es, strtod) == [first] + others;
      forall i | 0 <= i < |[first] + others|
        ensures 0 !in ([first] + others)[i].key && WellFormed(([first] + others)[i].value)
      {
        if i > 0 {
          assert ([first] + others)[i] == others[i - 1];
        }
      }
    }
  }

  // Whatever text has been accepted, the tree it gave can be printed, and both printed forms give the tree again.
  lemma ParseThenPrint(text: bytes, format: bool, strtod: Strtod)
    requires NoNul(text) && ParseText(text, strtod).Some?
    ensures var v := ParseText(text, strtod).value;
            && WellFormed(v) && NoNul(Print(v, format, 0))
            && ParseText(Print(v, format, 0), strtod) == Some(v)
  {
    hide Conforms, Print, ParseText, WellFormed, Nesting, Meaning, NoNul, Splits;
    var _, _, t, _ := TextRead(text, strtod);
    MeaningIsWellFormed(t, strtod);
    PrintThenParse(ParseText(text, strtod).value, format, strtod);
  }

  // ----- The limit and the layout, seen on texts -----

  // n arrays inside each other.
  function Nested(n: nat): (v: Value)
    requires n > 0
    ensures WellFormed(v)
  {
    if n == 1 then Array([]) else Array([Nested(n - 1)])
  }

  function Repeated(b: byte, n: nat): bytes {
    seq(n, _ => b)
  }

  lemma {:induction false} NestedPrints(n: nat, depth: nat)
    requires n > 0
    ensures Print(Nested(n), false, depth) == Repeated(OPEN_BRACKET, n) + Repeated(CLOSE_BRACKET, n)
    ensures Nesting(Nested(n)) == n
  {
    if n == 1 {
      assert Print(Array([]), false, depth) == [OPEN_BRACKET, CLOSE_BRACKET];
    } else {
      NestedPrints(n - 1, depth + 1);
      var inner := Print(Nested(n - 1), false, depth + 1);
      assert PrintItems([Nested(n - 1)], false, depth + 1) == inner;
      assert Print(Nested(n), false, depth) == [OPEN_BRACKET] + inner + [CLOSE_BRACKET];
      assert Repeated(OPEN_BRACKET, n) == [OPEN_BRACKET] + Repeated(OPEN_BRACKET, n - 1);
      assert Repeated(CLOSE_BRACKET, n) == Repeated(CLOSE_BRACKET, n - 1) + [CLOSE_BRACKET];
      assert [Nested(n - 1)][1..] == [];
      assert NestingOfItems([Nested(n - 1)]) == n - 1;
    }
  }

  // n opening and n closing brackets are parsed for every n up to 1000, and for no larger one.
  lemma BracketsParse(n: nat, strtod: Strtod)
    requires n > 0
    ensures var text := Repeated('[' as int, n) + Repeated(']' as int, n);
            NoNul(text) && ParseText(text, strtod) == if n <= 1000 then Some(Nested(n)) else None
  {
    NestedPrints(n, 0);
    hide Print, ParseText, Conforms, Nested, Nesting;
    PrintThenParse(Nested(n), false, strtod);
  }

  // The formatted layout of an object: members stand on lines of their own, a tab deeper than the object, with a tab
  // behind the colon; an empty object still takes two lines.
  lemma LayoutOfObject(k: bytes, x: Value, l: bytes, y: Value, depth: nat)
    ensures var line := Ascii("\n") + Repeated('\t' as int, depth + 1);
            Print(Object([Member(k, x), Member(l, y)]), true, depth)
            == Ascii("{") + (line + Quoted(k) + Ascii(":\t") + Print(x, true, depth + 1))
               + (Ascii(",") + line + Quoted(l) + Ascii(":\t") + Print(y, true, depth + 1))
               + (Ascii("\n") + Repeated('\t' as int, depth) + Ascii("}"))
    ensures Print(Object([]), true, depth) == Ascii("{\n") + Repeated('\t' as int, depth) + Ascii("}")
  {
    var m, n := Member(k, x), Member(l, y);
    var body := PrintMembers([m, n], true, depth + 1);
    TwoMembers(m, n, true, depth + 1);
    Marks();
    assert Print(Object([m, n]), true, depth) == [OPEN_BRACE] + [NEWLINE] + body + Tabs(depth) + [CLOSE_BRACE];
    assert Print(Object([]), true, depth) == [OPEN_BRACE] + [NEWLINE] + [] + Tabs(depth) + [CLOSE_BRACE];
    assert Tabs(depth) == Repeated('\t' as int, depth) && Tabs(depth + 1) == Repeated('\t' as int, depth + 1);
    assert KeyText(k, true, depth + 1) == Tabs(depth + 1) + Quoted(k) + [COLON] + [TAB];
    assert KeyText(l, true, depth + 1) == Tabs(depth + 1) + Quoted(l) + [COLON] + [TAB];
    assert MemberEnd(false, true) == [COMMA] + [NEWLINE] && MemberEnd(true, true) == [] + [NEWLINE];
    hide Quoted, PrintMembers, Print, KeyText, MemberEnd, Tabs, Ascii, Repeated;
    LinesOf(Tabs(depth + 1), Quoted(k), Print(x, true, depth + 1), Quoted(l), Print(y, true, depth + 1), Tabs(depth));
  }

  lemma Marks()
    ensures Ascii("{") == [OPEN_BRACE] && Ascii("}") == [CLOSE_BRACE]
    ensures Ascii("\n") == [NEWLINE] && Ascii(",") == [COMMA]
    ensures Ascii(":\t") == [COLON] + [TAB] && Ascii(":") == [COLON] && Ascii("{\n") == [OPEN_BRACE] + [NEWLINE]
    ensures Ascii("[") == [OPEN_BRACKET] && Ascii("]") == [CLOSE_BRACKET] && Ascii(", ") == [COMMA] + [SPACE]
    ensures Ascii("{}") == [OPEN_BRACE] + [CLOSE_BRACE] && Ascii("[]") == [OPEN_BRACKET] + [CLOSE_BRACKET]
  {
  }

  lemma LinesOf(t: bytes, k: bytes, x: bytes, l: bytes, y: bytes, u: bytes)
    ensures var line := [NEWLINE] + t;
            [OPEN_BRACE] + [NEWLINE]
            + ((t + k + [COLON] + [TAB]) + x + ([COMMA] + [NEWLINE])
                  + ((t + l + [COLON] + [TAB]) + y + ([] + [NEWLINE])))
            + u + [CLOSE_BRACE]
            == [OPEN_BRACE] + (line + k + ([COLON] + [TAB]) + x) + ([COMMA] + line + l + ([COLON] + [TAB]) + y)
               + ([NEWLINE] + u + [CLOSE_BRACE])
  {
  }

  lemma TwoMembers(m: Member, n: Member, format: bool, depth: nat)
    ensures PrintMembers([], format, depth) == []
    ensures PrintMembers([m, n], format, depth)
            == KeyText(m.key, format, depth) + Print(m.value, format, depth) + MemberEnd(false, format)
               + (KeyText(n.key, format, depth) + Print(n.value, format, depth) + MemberEnd(true, format))
  {
    hide KeyText, MemberEnd, Print;
    assert [m, n][1..] == [n] && [n][1..] == [];
    assert PrintMembers([n], format, depth)
        == KeyText(n.key, format, depth) + Print(n.value, format, depth) + MemberEnd(true, format) + [];
  }

  // The formatted layout of an array stays on its line, with a space behind the commas.
  lemma LayoutOfArray(x: Value, y: Value, depth: nat)
    ensures Print(Array([x, y]), true, depth)
            == Ascii("[") + Print(x, true, depth + 1) + Ascii(", ") + Print(y, true, depth + 1) + Ascii("]")
    ensures Print(Array([]), true, depth) == Ascii("[]")
  {
    Marks();
    var items := PrintItems([x, y], true, depth + 1);
    assert [x, y][1..] == [y];
    assert PrintItems([y], true, depth + 1) == Print(y, true, depth + 1);
    assert items == Print(x, true, depth + 1) + ([COMMA] + [SPACE]) + Print(y, true, depth + 1);
    assert Print(Array([x, y]), true, depth) == [OPEN_BRACKET] + items + [CLOSE_BRACKET];
    assert Print(Array([]), true, depth) == [OPEN_BRACKET] + [] + [CLOSE_BRACKET];
    hide Print, PrintItems, Ascii;
  }

  // Unformatted output has nothing between its tokens.
  lemma NoLayout(k: bytes, x: Value, l: bytes, y: Value, depth: nat)
    ensures Print(Object([Member(k, x), Member(l, y)]), false, depth)
            == Ascii("{") + (Quoted(k) + Ascii(":") + Print(x, false, depth + 1))
               + (Ascii(",") + Quoted(l) + Ascii(":") + Print(y, false, depth + 1)) + Ascii("}")
    ensures Print(Array([x, y]), false, depth)
            == Ascii("[") + Print(x, false, depth + 1) + Ascii(",") + Print(y, false, depth + 1) + Ascii("]")
  {
    hide Print, PrintItems, Quoted, Ascii;
    Marks();
    BareObject(k, x, l, y, depth);
    BareArray(x, y, depth);
  }

  lemma BareArray(x: Value, y: Value, depth: nat)
    ensures Print(Array([x, y]), false, depth)
            == [OPEN_BRACKET] + Print(x, false, depth + 1) + [COMMA] + Print(y, false, depth + 1) + [CLOSE_BRACKET]
  {
    var items := PrintItems([x, y], false, depth + 1);
    assert [x, y][1..] == [y];
    assert PrintItems([y], false, depth + 1) == Print(y, false, depth + 1);
    assert items == Print(x, false, depth + 1) + ([COMMA] + []) + Print(y, false, depth + 1);
    assert Print(Array([x, y]), false, depth) == [OPEN_BRACKET] + items + [CLOSE_BRACKET];
  }

  lemma BareObject(k: bytes, x: Value, l: bytes, y: Value, depth: nat)
    ensures Print(Object([Member(k, x), Member(l, y)]), false, depth)
            == [OPEN_BRACE] + (Quoted(k) + [COLON] + Print(x, false, depth + 1))
               + ([COMMA] + Quoted(l) + [COLON] + Print(y, false, depth + 1)) + [CLOSE_BRACE]
  {
    var m, n := Member(k, x), Member(l, y);
    var body := PrintMembers([m, n], false, depth + 1);
    TwoMembers(m, n, false, depth + 1);
    assert Print(Object([m, n]), false, depth) == [OPEN_BRACE] + [] + body + [] + [CLOSE_BRACE];
    assert KeyText(k, false, depth + 1) == [] + Quoted(k) + [COLON] + [];
    assert KeyText(l, false, depth + 1) == [] + Quoted(l) + [COLON] + [];
    assert MemberEnd(false, false) == [COMMA] + [] && MemberEnd(true, false) == [] + [];
    hide Quoted, PrintMembers, Print, KeyText, MemberEnd;
    BarePieces(Quoted(k), Print(x, false, depth + 1), Quoted(l), Print(y, false, depth + 1));
  }

  lemma BarePieces(k: bytes, x: bytes, l: bytes, y: bytes)
    ensures [OPEN_BRACE] + []
            + (([] + k + [COLON] + []) + x + ([COMMA] + []) + (([] + l + [COLON] + []) + y + ([] + [])))
            + [] + [CLOSE_BRACE]
            == [OPEN_BRACE] + (k + [COLON] + x) + ([COMMA] + l + [COLON] + y) + [CLOSE_BRACE]
  {
  }
}
