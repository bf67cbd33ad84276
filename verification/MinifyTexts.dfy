// Minifying any text of RFC 8259, however it is spaced: the white space disappears and the meaning stays, unless a
// string ends in an escaped backslash.
module MinifyTexts {
  import opened Bytes
  import opened Utf16
  import opened JsonValue
  import opened JsonNumber
  import opened JsonString
  import opened StringGrammar
  import opened JsonText
  import opened JsonGrammar
  import opened JsonReading
  import opened JsonMinify
  import opened MinifyUndoes

  // ----- The same text without white space -----

  function Bare(t: Syntax): Syntax
    decreases t, 0
  {
    match t
    case List(_, es) => List([], BareElements(es))
    case Record(_, es) => Record([], BareEntries(es))
    case _ => t
  }

  function BareElements(es: seq<Element>): (r: seq<Element>)
    ensures |r| == |es|
    decreases es, 1
  {
    if es == [] then [] else [Element([], Bare(es[0].item), [])] + BareElements(es[1..])
  }

  function BareEntries(es: seq<Entry>): (r: seq<Entry>)
    ensures |r| == |es|
    decreases es, 1
  {
    if es == [] then [] else [Entry([], es[0].key, [], [], Bare(es[0].item), [])] + BareEntries(es[1..])
  }

  // No string in the text ends in a backslash, as one that ends in an escaped backslash does.
  predicate Tidy(t: Syntax)
    decreases t, 0
  {
    match t
    case Literal(body) => !EndsInBackslash(body)
    case List(_, es) => TidyElements(es)
    case Record(_, es) => TidyEntries(es)
    case _ => true
  }

  predicate TidyElements(es: seq<Element>)
    decreases es, 1
  {
    es == [] || (Tidy(es[0].item) && TidyElements(es[1..]))
  }

  predicate TidyEntries(es: seq<Entry>)
    decreases es, 1
  {
    es == [] || (!EndsInBackslash(es[0].key) && Tidy(es[0].item) && TidyEntries(es[1..]))
  }

  lemma BareElementsStep(es: seq<Element>)
    requires es != []
    ensures BareElements(es)[0] == Element([], Bare(es[0].item), []) && BareElements(es)[1..] == BareElements(es[1..])
  {
    hide Bare;
  }

  lemma BareEntriesStep(es: seq<Entry>)
    requires es != []
    ensures BareEntries(es)[0] == Entry([], es[0].key, [], [], Bare(es[0].item), [])
    ensures BareEntries(es)[1..] == BareEntries(es[1..])
  {
    hide Bare;
  }

  // ----- Without white space a text is still a text, and means the same -----

  lemma {:induction false} BareMeans(t: Syntax, strtod: Strtod)
    requires Standard(t)
    ensures Standard(Bare(t)) && Meaning(Bare(t), strtod) == Meaning(t, strtod)
    ensures SurrogatesPaired(Bare(t)) == SurrogatesPaired(t)
    decreases t, 0
  {
    hide Conforms, StandardBody, NoLoneSurrogate, StandardNumeral, TextOf;
    match t {
      case List(gap, es) => BareElementsMean(es, strtod);
      case Record(gap, es) => BareEntriesMean(es, strtod);
      case _ =>
    }
  }

  lemma {:induction false} BareElementsMean(es: seq<Element>, strtod: Strtod)
    requires StandardElements(es)
    ensures StandardElements(BareElements(es))
        && MeaningOfElements(BareElements(es), strtod) == MeaningOfElements(es, strtod)
    ensures ElementsPaired(BareElements(es)) == ElementsPaired(es)
    decreases es, 1
  {
    hide Conforms, Standard, Meaning, SurrogatesPaired, Bare;
    if es != [] {
      BareElementsStep(es);
      BareMeans(es[0].item, strtod);
      BareElementsMean(es[1..], strtod);
      hide BareElements;
    }
  }

  lemma {:induction false} BareEntriesMean(es: seq<Entry>, strtod: Strtod)
    requires StandardEntries(es)
    ensures StandardEntries(BareEntries(es))
        && MeaningOfEntries(BareEntries(es), strtod) == MeaningOfEntries(es, strtod)
    ensures EntriesPaired(BareEntries(es)) == EntriesPaired(es)
    decreases es, 1
  {
    hide Conforms, Standard, Meaning, SurrogatesPaired, Bare, StandardBody, NoLoneSurrogate, TextOf;
    if es != [] {
      BareEntriesStep(es);
      BareMeans(es[0].item, strtod);
      BareEntriesMean(es[1..], strtod);
      hide BareEntries;
    }
  }

  // ----- Strings -----

  // A quote only follows a backslash.
  predicate QuotesEscaped(b: bytes) {
    forall i :: 0 <= i < |b| && b[i] == QUOTE ==> i > 0 && b[i - 1] == BACKSLASH
  }

  lemma {:induction false} BodyQuotes(b: bytes)
    requires StandardBody(b)
    ensures QuotesEscaped(b)
    decreases |b|
  {
    if b != [] {
      BehindPiece(b);
      var n := PieceLength(FirstPiece(b).value);
      BodyQuotes(b[n..]);
      PieceQuotes(b);
      hide FirstPiece, StandardBody;
      forall i | 0 <= i < |b| && b[i] == QUOTE ensures i > 0 && b[i - 1] == BACKSLASH {
        if i >= n {
          assert b[n..][i - n] == QUOTE;
          assert b[n..][i - n - 1] == b[i - 1];
        }
      }
    }
  }

  lemma PieceQuotes(b: bytes)
    requires b != [] && FirstPiece(b).Some?
    ensures forall i :: 0 <= i < PieceLength(FirstPiece(b).value) && b[i] == QUOTE ==> i > 0 && b[i - 1] == BACKSLASH
  {
  }

  // Inside a string, such a body is copied, and the quote behind it ends the string.
  lemma {:induction false} BodyCopied(b: bytes, r: bytes)
    requires QuotesEscaped(b) && !EndsInBackslash(b)
    ensures InString(b + ([QUOTE] + r)) == b + ([QUOTE] + Minified(r))
    decreases |b|
  {
    hide InString, Minified;
    var t := b + ([QUOTE] + r);
    InStringStep(t);
    if b == [] {
      assert t == [QUOTE] + r && t[1..] == r;
    } else if b[0] == BACKSLASH && b[1] == QUOTE {
      assert b[2..] == [] || b[2..][|b| - 3] == b[|b| - 1];
      assert t[2..] == b[2..] + ([QUOTE] + r);
      BodyCopied(b[2..], r);
      assert [BACKSLASH, QUOTE] + (b[2..] + ([QUOTE] + Minified(r))) == b + ([QUOTE] + Minified(r));
    } else {
      assert b[1..] == [] || b[1..][|b| - 2] == b[|b| - 1];
      assert t[1..] == b[1..] + ([QUOTE] + r);
      BodyCopied(b[1..], r);
      assert [b[0]] + (b[1..] + ([QUOTE] + Minified(r))) == b + ([QUOTE] + Minified(r));
    }
  }

  lemma StringCopied(body: bytes, r: bytes)
    requires StandardBody(body) && !EndsInBackslash(body)
    ensures Minified(InQuotes(body) + r) == InQuotes(body) + Minified(r)
  {
    hide InString, Minified, StandardBody;
    BodyQuotes(body);
    hide QuotesEscaped;
    BodyCopied(body, r);
    var t := [QUOTE] + (body + ([QUOTE] + r));
    assert InQuotes(body) + r == t && t[1..] == body + ([QUOTE] + r);
    MinifiedStep(t);
    assert InQuotes(body) + Minified(r) == [QUOTE] + (body + ([QUOTE] + Minified(r)));
  }

  // ----- Everything else -----

  lemma SpaceDropped(w: bytes, r: bytes)
    requires StandardSpace(w)
    ensures Minified(w + r) == Minified(r)
  {
    hide Minified;
    WhiteDropped(w, r);
  }

  lemma NumeralInert(token: bytes)
    requires StandardNumeral(token)
    ensures Inert(token)
  {
    StandardIsNumberBytes(token);
  }

  // A text of sections 2 to 7 loses its white space, whatever follows it.
  lemma {:induction false} WriteMinified(t: Syntax, r: bytes)
    requires Standard(t) && Tidy(t)
    ensures Minified(Write(t) + r) == Write(Bare(t)) + Minified(r)
    decreases t, 0
  {
    hide Minified, StandardBody, StandardNumeral, WriteElements, WriteEntries, StandardSpace, InQuotes;
    match t {
      case Word(v) => InertCopied(WordText(v), r);
      case Numeral(token) =>
        NumeralInert(token);
        InertCopied(token, r);
      case Literal(body) => StringCopied(body, r);
      case List(gap, es) =>
        ElementsMinified(es, [CLOSE_BRACKET] + r);
        Bracketed(OPEN_BRACKET, gap, WriteElements(es), WriteElements(BareElements(es)), CLOSE_BRACKET, r);
      case Record(gap, es) =>
        EntriesMinified(es, [CLOSE_BRACE] + r);
        Bracketed(OPEN_BRACE, gap, WriteEntries(es), WriteEntries(BareEntries(es)), CLOSE_BRACE, r);
    }
  }

  lemma Bracketed(open: byte, gap: bytes, inside: bytes, bare: bytes, close: byte, r: bytes)
    requires Inert([open]) && StandardSpace(gap) && Inert([close])
    requires Minified(inside + ([close] + r)) == bare + Minified([close] + r)
    ensures Minified([open] + (gap + (inside + [close])) + r) == [open] + ([] + (bare + [close])) + Minified(r)
  {
    hide Minified, Inert, StandardSpace;
    assert [open] + (gap + (inside + [close])) + r == [open] + (gap + (inside + ([close] + r)));
    InertCopied([open], gap + (inside + ([close] + r)));
    SpaceDropped(gap, inside + ([close] + r));
    InertCopied([close], r);
    assert [open] + (bare + ([close] + Minified(r))) == [open] + ([] + (bare + [close])) + Minified(r);
  }

  lemma {:induction false} ElementsMinified(es: seq<Element>, r: bytes)
    requires StandardElements(es) && TidyElements(es)
    ensures Minified(WriteElements(es) + r) == WriteElements(BareElements(es)) + Minified(r)
    decreases es, 1
  {
    hide Minified, Write, Standard, Tidy, Bare, StandardSpace;
    if es == [] {
      assert [] + r == r && [] + Minified(r) == Minified(r);
    } else {
      var e, more, bare := es[0], MoreElements(es), MoreElements(BareElements(es));
      BareElementsStep(es);
      WriteMinified(e.item, e.after + (more + r));
      if |es| == 1 {
        assert [] + r == r && [] + Minified(r) == Minified(r);
      } else {
        ElementsMinified(es[1..], r);
        CommaCopied(WriteElements(es[1..]), WriteElements(BareElements(es[1..])), r);
      }
      hide MoreElements, BareElements, StandardElements, TidyElements;
      Spaced(e.before, Write(e.item), e.after, more, Write(Bare(e.item)), bare, r);
    }
  }

  lemma CommaCopied(rest: bytes, bare: bytes, r: bytes)
    requires Minified(rest + r) == bare + Minified(r)
    ensures Minified([COMMA] + rest + r) == [COMMA] + bare + Minified(r)
  {
    hide Minified;
    assert [COMMA] + rest + r == [COMMA] + (rest + r);
    InertCopied([COMMA], rest + r);
  }

  // A value between white space, and what follows it.
  lemma Spaced(before: bytes, value: bytes, after: bytes, more: bytes, bareValue: bytes, bareMore: bytes, r: bytes)
    requires StandardSpace(before) && StandardSpace(after)
    requires Minified(value + (after + (more + r))) == bareValue + Minified(after + (more + r))
    requires Minified(more + r) == bareMore + Minified(r)
    ensures Minified((before + (value + (after + more))) + r) == ([] + (bareValue + ([] + bareMore))) + Minified(r)
  {
    hide Minified, StandardSpace;
    assert (before + (value + (after + more))) + r == before + (value + (after + (more + r)));
    SpaceDropped(before, value + (after + (more + r)));
    SpaceDropped(after, more + r);
    assert bareValue + (bareMore + Minified(r)) == ([] + (bareValue + ([] + bareMore))) + Minified(r);
  }

  lemma {:induction false} EntriesMinified(es: seq<Entry>, r: bytes)
    requires StandardEntries(es) && TidyEntries(es)
    ensures Minified(WriteEntries(es) + r) == WriteEntries(BareEntries(es)) + Minified(r)
    decreases es, 2
  {
    hide Minified, WriteEntry, StandardEntry, Tidy, Bare, StandardSpace;
    if es == [] {
      assert [] + r == r && [] + Minified(r) == Minified(r);
    } else {
      var e, bareEntry := es[0], BareEntries(es)[0];
      var more, bare := MoreEntries(es), MoreEntries(BareEntries(es));
      BareEntriesStep(es);
      EntryMinified(e, bareEntry, e.after + (more + r));
      if |es| == 1 {
        assert [] + r == r && [] + Minified(r) == Minified(r);
      } else {
        EntriesMinified(es[1..], r);
        CommaCopied(WriteEntries(es[1..]), WriteEntries(BareEntries(es[1..])), r);
      }
      hide MoreEntries, BareEntries, StandardEntries, TidyEntries;
      SpaceBehind(WriteEntry(e), e.after, more, WriteEntry(bareEntry), bare, r);
    }
  }

  lemma SpaceBehind(entry: bytes, after: bytes, more: bytes, bareEntry: bytes, bareMore: bytes, r: bytes)
    requires StandardSpace(after)
    requires Minified(entry + (after + (more + r))) == bareEntry + Minified(after + (more + r))
    requires Minified(more + r) == bareMore + Minified(r)
    ensures Minified((entry + (after + more)) + r) == (bareEntry + ([] + bareMore)) + Minified(r)
  {
    hide Minified, StandardSpace;
    assert (entry + (after + more)) + r == entry + (after + (more + r));
    SpaceDropped(after, more + r);
    assert bareEntry + (bareMore + Minified(r)) == (bareEntry + ([] + bareMore)) + Minified(r);
  }

  lemma {:induction false} EntryMinified(e: Entry, bare: Entry, r: bytes)
    requires StandardEntry(e) && !EndsInBackslash(e.key) && Tidy(e.item)
    requires bare == Entry([], e.key, [], [], Bare(e.item), [])
    ensures Minified(WriteEntry(e) + r) == WriteEntry(bare) + Minified(r)
    decreases e, 1
  {
    hide Minified, Write, Standard, Tidy, Bare, StandardSpace, StandardBody, InQuotes, EndsInBackslash;
    var key, value, bareValue := InQuotes(e.key), Write(e.item), Write(Bare(e.item));
    var colon := [COLON] + (e.afterColon + (value + r));
    EntryPieces(e.before, key, e.beforeColon, e.afterColon, value, r);
    SpaceDropped(e.before, key + (e.beforeColon + colon));
    StringCopied(e.key, e.beforeColon + colon);
    SpaceDropped(e.beforeColon, colon);
    InertCopied([COLON], e.afterColon + (value + r));
    SpaceDropped(e.afterColon, value + r);
    WriteMinified(e.item, r);
    EntryPieces([], key, [], [], bareValue, Minified(r));
    BareColon(key, bareValue + Minified(r));
  }

  lemma EntryPieces(b: bytes, key: bytes, c: bytes, a: bytes, value: bytes, r: bytes)
    ensures (b + (key + (c + ([COLON] + (a + value))))) + r == b + (key + (c + ([COLON] + (a + (value + r)))))
  {
  }

  lemma BareColon(key: bytes, x: bytes)
    ensures [] + (key + ([] + ([COLON] + ([] + x)))) == key + ([COLON] + x)
  {
  }

  // ----- Main result -----

  lemma SpacingUndone(before: bytes, t: Syntax, after: bytes)
    requires StandardSpace(before) && Standard(t) && StandardSpace(after) && Tidy(t)
    ensures Minified(before + (Write(t) + after)) == Write(Bare(t))
  {
    hide Minified, Write, Standard, Tidy, Bare, StandardSpace;
    SpaceDropped(before, Write(t) + after);
    WriteMinified(t, after);
    NothingBehind(after);
    assert Write(Bare(t)) + [] == Write(Bare(t));
  }

  // cJSON_Minify of a text of RFC 8259 without strings that end in a backslash: the same text without white space,
  // which is a text of RFC 8259 again and is parsed to the same value, or rejected like the original.
  lemma TextMinified(before: bytes, t: Syntax, after: bytes, strtod: Strtod)
    requires StandardSpace(before) && Standard(t) && StandardSpace(after) && Tidy(t)
    ensures Minified(before + (Write(t) + after)) == Write(Bare(t))
    ensures Standard(Bare(t)) && Meaning(Bare(t), strtod) == Meaning(t, strtod)
    ensures NoNul(before + (Write(t) + after)) && NoNul(Write(Bare(t)))
    ensures ConvertsNumerals(strtod) ==>
        ParseText(Write(Bare(t)), strtod) == ParseText(before + (Write(t) + after), strtod)
  {
    hide Minified, Conforms, Write, Standard, Tidy, Bare, Meaning, ParseText, StandardSpace, ConvertsNumerals,
      SurrogatesPaired, NoNul, Nesting;
    SpacingUndone(before, t, after);
    BareMeans(t, strtod);
    TextHasNoNul(before, t, after);
    StandardHasNoNul(Bare(t));
    if ConvertsNumerals(strtod) {
      EmptySpace();
      StandardTextParses(before, t, after, strtod);
      StandardTextParses([], Bare(t), [], strtod);
      assert [] + (Write(Bare(t)) + []) == Write(Bare(t));
    }
  }

  lemma NothingBehind(after: bytes)
    requires StandardSpace(after)
    ensures Minified(after) == []
  {
    assert after + [] == after;
    SpaceDropped(after, []);
  }

  lemma EmptySpace()
    ensures StandardSpace([])
  {
  }

  lemma TextHasNoNul(before: bytes, t: Syntax, after: bytes)
    requires StandardSpace(before) && Standard(t) && StandardSpace(after)
    ensures NoNul(before + (Write(t) + after))
  {
    hide NoNul, Write, Standard;
    StandardHasNoNul(t);
    SpaceHasNoNul(before);
    SpaceHasNoNul(after);
    ThreeNoNul(before, Write(t), after);
  }

  // Minifying what has been minified changes nothing more.
  lemma {:induction false} BareAgain(t: Syntax)
    ensures Bare(Bare(t)) == Bare(t) && Tidy(Bare(t)) == Tidy(t)
    decreases t, 0
  {
    match t {
      case List(_, es) => BareElementsAgain(es);
      case Record(_, es) => BareEntriesAgain(es);
      case _ =>
    }
  }

  lemma {:induction false} BareElementsAgain(es: seq<Element>)
    ensures BareElements(BareElements(es)) == BareElements(es) && TidyElements(BareElements(es)) == TidyElements(es)
    decreases es, 1
  {
    hide Bare, Tidy;
    if es != [] {
      BareElementsStep(es);
      BareElementsStep(BareElements(es));
      BareAgain(es[0].item);
      BareElementsAgain(es[1..]);
    }
  }

  lemma {:induction false} BareEntriesAgain(es: seq<Entry>)
    ensures BareEntries(BareEntries(es)) == BareEntries(es) && TidyEntries(BareEntries(es)) == TidyEntries(es)
    decreases es, 1
  {
    hide Bare, Tidy;
    if es != [] {
      BareEntriesStep(es);
      BareEntriesStep(BareEntries(es));
      BareAgain(es[0].item);
      BareEntriesAgain(es[1..]);
    }
  }

  lemma MinifiedAgain(before: bytes, t: Syntax, after: bytes, strtod: Strtod)
    requires StandardSpace(before) && Standard(t) && StandardSpace(after) && Tidy(t)
    ensures Minified(Minified(before + (Write(t) + after))) == Minified(before + (Write(t) + after))
  {
    hide Minified, Conforms, Write, Standard, Tidy, Bare, Meaning, StandardSpace;
    TextMinified(before, t, after, strtod);
    BareAgain(t);
    EmptySpace();
    TextMinified([], Bare(t), [], strtod);
    assert [] + (Write(Bare(t)) + []) == Write(Bare(t));
  }

  // ----- Exactly when every spacing is undone -----

  // The same text with a space behind every value and every key.
  function Loose(t: Syntax): Syntax
    decreases t, 0
  {
    match t
    case List(_, es) => List([], LooseElements(es))
    case Record(_, es) => Record([], LooseEntries(es))
    case _ => t
  }

  function LooseElements(es: seq<Element>): (r: seq<Element>)
    ensures |r| == |es|
    decreases es, 1
  {
    if es == [] then [] else [Element([], Loose(es[0].item), [SPACE])] + LooseElements(es[1..])
  }

  function LooseEntries(es: seq<Entry>): (r: seq<Entry>)
    ensures |r| == |es|
    decreases es, 1
  {
    if es == [] then [] else [Entry([], es[0].key, [SPACE], [], Loose(es[0].item), [SPACE])] + LooseEntries(es[1..])
  }

  lemma LooseElementsStep(es: seq<Element>)
    requires es != []
    ensures LooseElements(es)[0] == Element([], Loose(es[0].item), [SPACE])
    ensures LooseElements(es)[1..] == LooseElements(es[1..])
  {
    hide Loose;
  }

  lemma LooseEntriesStep(es: seq<Entry>)
    requires es != []
    ensures LooseEntries(es)[0] == Entry([], es[0].key, [SPACE], [], Loose(es[0].item), [SPACE])
    ensures LooseEntries(es)[1..] == LooseEntries(es[1..])
  {
    hide Loose;
  }

  lemma {:induction false} LooseIsStandard(t: Syntax)
    requires Standard(t)
    ensures Standard(Loose(t)) && Bare(Loose(t)) == Bare(t) && Tidy(Loose(t)) == Tidy(t)
    decreases t, 0
  {
    hide StandardBody, StandardNumeral;
    match t {
      case List(_, es) => LooseElementsAreStandard(es);
      case Record(_, es) => LooseEntriesAreStandard(es);
      case _ =>
    }
  }

  lemma {:induction false} LooseElementsAreStandard(es: seq<Element>)
    requires StandardElements(es)
    ensures StandardElements(LooseElements(es)) && BareElements(LooseElements(es)) == BareElements(es)
    ensures TidyElements(LooseElements(es)) == TidyElements(es)
    decreases es, 1
  {
    hide Standard, Bare, Tidy, Loose;
    if es != [] {
      LooseElementsStep(es);
      LooseIsStandard(es[0].item);
      LooseElementsAreStandard(es[1..]);
      hide LooseElements;
    }
  }

  lemma {:induction false} LooseEntriesAreStandard(es: seq<Entry>)
    requires StandardEntries(es)
    ensures StandardEntries(LooseEntries(es)) && BareEntries(LooseEntries(es)) == BareEntries(es)
    ensures TidyEntries(LooseEntries(es)) == TidyEntries(es)
    decreases es, 1
  {
    hide Standard, Bare, Tidy, Loose, StandardBody;
    if es != [] {
      LooseEntriesStep(es);
      LooseIsStandard(es[0].item);
      LooseEntriesAreStandard(es[1..]);
      hide LooseEntries;
    }
  }

  // Nothing, or something other than a space.
  predicate NoSpaceFirst(x: bytes) {
    x == [] || x[0] != SPACE
  }

  // The closing quote behind a backslash is missed: what follows is still read as string.
  lemma {:induction false} QuoteMissed(b: bytes, r: bytes)
    requires QuotesEscaped(b) && EndsInBackslash(b)
    ensures InString(b + ([QUOTE] + r)) == b + ([QUOTE] + InString(r))
    decreases |b|
  {
    hide InString, Minified;
    var t := b + ([QUOTE] + r);
    InStringStep(t);
    if b == [BACKSLASH] {
      assert t[2..] == r;
      assert [BACKSLASH, QUOTE] + InString(r) == b + ([QUOTE] + InString(r));
    } else if b[0] == BACKSLASH && b[1] == QUOTE {
      assert b[2..] != [] && b[2..][|b| - 3] == b[|b| - 1];
      assert t[2..] == b[2..] + ([QUOTE] + r);
      QuoteMissed(b[2..], r);
      assert [BACKSLASH, QUOTE] + (b[2..] + ([QUOTE] + InString(r))) == b + ([QUOTE] + InString(r));
    } else {
      assert b[1..] != [] && b[1..][|b| - 2] == b[|b| - 1];
      assert t[1..] == b[1..] + ([QUOTE] + r);
      QuoteMissed(b[1..], r);
      assert [b[0]] + (b[1..] + ([QUOTE] + InString(r))) == b + ([QUOTE] + InString(r));
    }
  }

  // So a space behind such a string stays.
  lemma SpaceKept(body: bytes, r: bytes, x: bytes)
    requires StandardBody(body) && EndsInBackslash(body) && NoSpaceFirst(x)
    ensures Minified(InQuotes(body) + ([SPACE] + r)) != InQuotes(body) + x
  {
    hide InString, Minified, StandardBody;
    BodyQuotes(body);
    hide QuotesEscaped;
    QuoteMissed(body, [SPACE] + r);
    var t := [QUOTE] + (body + ([QUOTE] + ([SPACE] + r)));
    assert InQuotes(body) + ([SPACE] + r) == t && t[1..] == body + ([QUOTE] + ([SPACE] + r));
    MinifiedStep(t);
    InStringStep([SPACE] + r);
    assert ([SPACE] + r)[1..] == r;
    assert Minified(t) == InQuotes(body) + ([SPACE] + InString(r));
    Differ(InQuotes(body), [SPACE] + InString(r), x);
  }

  lemma Differ(p: bytes, x: bytes, y: bytes)
    ensures p + x == p + y <==> x == y
  {
    assert (p + x)[|p|..] == x && (p + y)[|p|..] == y;
  }

  // Then the spaces of the loose text are not all removed, whatever may follow it.
  lemma {:induction false} UntidyKept(t: Syntax, r: bytes, x: bytes)
    requires Standard(t) && !Tidy(t) && NoSpaceFirst(x)
    ensures Minified(Write(Loose(t)) + ([SPACE] + r)) != Write(Bare(t)) + x
    decreases t, 0
  {
    hide Minified, StandardBody, WriteElements, WriteEntries, EndsInBackslash, InQuotes;
    match t {
      case Literal(body) => SpaceKept(body, r, x);
      case List(_, es) =>
        UntidyElementsKept(es, [CLOSE_BRACKET] + ([SPACE] + r), [CLOSE_BRACKET] + x);
        Opened(OPEN_BRACKET, WriteElements(LooseElements(es)), WriteElements(BareElements(es)), CLOSE_BRACKET,
            [SPACE] + r, x);
      case Record(_, es) =>
        UntidyEntriesKept(es, [CLOSE_BRACE] + ([SPACE] + r), [CLOSE_BRACE] + x);
        Opened(OPEN_BRACE, WriteEntries(LooseEntries(es)), WriteEntries(BareEntries(es)), CLOSE_BRACE, [SPACE] + r, x);
    }
  }

  lemma Opened(open: byte, inside: bytes, bare: bytes, close: byte, r: bytes, x: bytes)
    requires Inert([open]) && Minified(inside + ([close] + r)) != bare + ([close] + x)
    ensures Minified([open] + ([] + (inside + [close])) + r) != [open] + ([] + (bare + [close])) + x
  {
    hide Minified, Inert;
    assert [open] + ([] + (inside + [close])) + r == [open] + (inside + ([close] + r));
    InertCopied([open], inside + ([close] + r));
    assert [open] + ([] + (bare + [close])) + x == [open] + (bare + ([close] + x));
    Differ([open], Minified(inside + ([close] + r)), bare + ([close] + x));
  }

  // The rest of a list: nothing before its end, or a comma and more elements.
  function Rest(last: bool, more: bytes): bytes {
    if last then [] else [COMMA] + more
  }

  lemma {:induction false} UntidyElementsKept(es: seq<Element>, r: bytes, x: bytes)
    requires StandardElements(es) && !TidyElements(es) && x != [] && x[0] != SPACE
    ensures Minified(WriteElements(LooseElements(es)) + r) != WriteElements(BareElements(es)) + x
    decreases es, 1
  {
    hide Minified, Write, Standard, Tidy, Bare, Loose;
    var e, last := es[0], |es| == 1;
    var loose, bare := WriteElements(LooseElements(es[1..])), WriteElements(BareElements(es[1..]));
    LooseElementsStep(es);
    BareElementsStep(es);
    assert MoreElements(LooseElements(es)) == Rest(last, loose) && MoreElements(BareElements(es)) == Rest(last, bare);
    assert WriteElements(LooseElements(es)) == [] + (Write(Loose(e.item)) + ([SPACE] + Rest(last, loose)));
    assert WriteElements(BareElements(es)) == [] + (Write(Bare(e.item)) + ([] + Rest(last, bare)));
    LooseIsStandard(e.item);
    if !Tidy(e.item) {
      hide WriteElements, LooseElements, BareElements, StandardElements, TidyElements;
      RestFirst(last, bare, x);
      UntidyKept(e.item, Rest(last, loose) + r, Rest(last, bare) + x);
      Grouped(Write(Loose(e.item)), Rest(last, loose), r, Write(Bare(e.item)), Rest(last, bare), x);
    } else {
      UntidyElementsKept(es[1..], r, x);
      hide WriteElements, LooseElements, BareElements, StandardElements, TidyElements;
      WriteMinified(Loose(e.item), [SPACE] + (Rest(last, loose) + r));
      RestKept(last, loose, r, bare, x);
      Differ(Write(Bare(e.item)), Minified(Rest(last, loose) + r), Rest(last, bare) + x);
      Grouped(Write(Loose(e.item)), Rest(last, loose), r, Write(Bare(e.item)), Rest(last, bare), x);
    }
  }

  lemma RestFirst(last: bool, more: bytes, x: bytes)
    requires x != [] && x[0] != SPACE
    ensures NoSpaceFirst(Rest(last, more) + x)
  {
    if last {
      assert [] + x == x;
    } else {
      assert (([COMMA] + more) + x)[0] == COMMA;
    }
  }

  // A space and a comma before a stretch that differs.
  lemma RestKept(last: bool, loose: bytes, r: bytes, bare: bytes, x: bytes)
    requires !last && Minified(loose + r) != bare + x
    ensures Minified([SPACE] + (Rest(last, loose) + r)) == Minified(Rest(last, loose) + r)
    ensures Minified(Rest(last, loose) + r) != Rest(last, bare) + x
  {
    hide Minified;
    WhiteDropped([SPACE], Rest(last, loose) + r);
    assert Rest(last, loose) + r == [COMMA] + (loose + r) && Rest(last, bare) + x == [COMMA] + (bare + x);
    InertCopied([COMMA], loose + r);
    Differ([COMMA], Minified(loose + r), bare + x);
  }

  lemma Grouped(loose: bytes, rest: bytes, r: bytes, bare: bytes, bareRest: bytes, x: bytes)
    ensures ([] + (loose + ([SPACE] + rest))) + r == loose + ([SPACE] + (rest + r))
    ensures ([] + (bare + ([] + bareRest))) + x == bare + (bareRest + x)
  {
  }

  lemma {:induction false} UntidyEntriesKept(es: seq<Entry>, r: bytes, x: bytes)
    requires StandardEntries(es) && !TidyEntries(es) && x != [] && x[0] != SPACE
    ensures Minified(WriteEntries(LooseEntries(es)) + r) != WriteEntries(BareEntries(es)) + x
    decreases es, 2
  {
    hide Minified, Write, Standard, Tidy, Bare, Loose, StandardBody, InQuotes, EndsInBackslash;
    var e, last := es[0], |es| == 1;
    var loose, bare := WriteEntries(LooseEntries(es[1..])), WriteEntries(BareEntries(es[1..]));
    LooseEntriesStep(es);
    BareEntriesStep(es);
    var value, bareValue := Write(Loose(e.item)), Write(Bare(e.item));
    assert MoreEntries(LooseEntries(es)) == Rest(last, loose) && MoreEntries(BareEntries(es)) == Rest(last, bare);
    var tail, bareTail := value + ([SPACE] + (Rest(last, loose) + r)), bareValue + (Rest(last, bare) + x);
    EntryGroups(InQuotes(e.key), value, Rest(last, loose), r, bareValue, Rest(last, bare), x);
    assert WriteEntries(LooseEntries(es)) + r == InQuotes(e.key) + ([SPACE] + ([COLON] + tail));
    assert WriteEntries(BareEntries(es)) + x == InQuotes(e.key) + ([COLON] + bareTail);
    if EndsInBackslash(e.key) {
      SpaceKept(e.key, [COLON] + tail, [COLON] + bareTail);
    } else {
      LooseIsStandard(e.item);
      if !Tidy(e.item) {
        hide WriteEntries, LooseEntries, BareEntries, StandardEntries, TidyEntries;
        RestFirst(last, bare, x);
        UntidyKept(e.item, Rest(last, loose) + r, Rest(last, bare) + x);
      } else {
        UntidyEntriesKept(es[1..], r, x);
        hide WriteEntries, LooseEntries, BareEntries, StandardEntries, TidyEntries;
        WriteMinified(Loose(e.item), [SPACE] + (Rest(last, loose) + r));
        RestKept(last, loose, r, bare, x);
        Differ(bareValue, Minified(Rest(last, loose) + r), Rest(last, bare) + x);
      }
      KeyThenMore(e.key, tail, bareTail);
    }
  }

  lemma EntryGroups(key: bytes, value: bytes, rest: bytes, r: bytes, bareValue: bytes, bareRest: bytes, x: bytes)
    ensures ([] + (key + ([SPACE] + ([COLON] + ([] + value)))) + ([SPACE] + rest)) + r
            == key + ([SPACE] + ([COLON] + (value + ([SPACE] + (rest + r)))))
    ensures ([] + (key + ([] + ([COLON] + ([] + bareValue)))) + ([] + bareRest)) + x
            == key + ([COLON] + (bareValue + (bareRest + x)))
  {
  }

  lemma KeyThenMore(key: bytes, tail: bytes, bareTail: bytes)
    requires StandardBody(key) && !EndsInBackslash(key) && Minified(tail) != bareTail
    ensures Minified(InQuotes(key) + ([SPACE] + ([COLON] + tail))) != InQuotes(key) + ([COLON] + bareTail)
  {
    hide Minified, StandardBody, InQuotes, EndsInBackslash;
    StringCopied(key, [SPACE] + ([COLON] + tail));
    WhiteDropped([SPACE], [COLON] + tail);
    InertCopied([COLON], tail);
    Differ([COLON], Minified(tail), bareTail);
    Differ(InQuotes(key), [COLON] + Minified(tail), [COLON] + bareTail);
  }

  // before, u and after are the text t with some other white space.
  predicate SpacingOf(before: bytes, u: Syntax, after: bytes, t: Syntax) {
    StandardSpace(before) && Standard(u) && StandardSpace(after) && Bare(u) == Bare(t)
  }

  ghost predicate AlwaysUndone(t: Syntax) {
    forall before, u, after :: SpacingOf(before, u, after, t) ==>
        Minified(before + (Write(u) + after)) == Write(Bare(t))
  }

  // Minifying undoes every spacing of a text if and only if no string in the text ends in a backslash.
  lemma SpacingIsUndoneExactly(t: Syntax)
    requires Standard(t)
    ensures AlwaysUndone(t) <==> Tidy(t)
  {
    if Tidy(t) {
      forall before, u, after | SpacingOf(before, u, after, t)
        ensures Minified(before + (Write(u) + after)) == Write(Bare(t))
      {
        SameTidiness(t, u);
        SpacingUndone(before, u, after);
      }
    } else {
      hide Minified, Write, Standard, Tidy, Bare, Loose;
      LooseIsStandard(t);
      EmptySpace();
      assert SpacingOf([], Loose(t), [SPACE], t);
      UntidyKept(t, [], []);
      assert [] + (Write(Loose(t)) + [SPACE]) == Write(Loose(t)) + ([SPACE] + []);
      assert Write(Bare(t)) + [] == Write(Bare(t));
    }
  }

  lemma SameTidiness(t: Syntax, u: Syntax)
    requires Bare(t) == Bare(u)
    ensures Tidy(t) == Tidy(u)
  {
    hide Bare, Tidy;
    BareAgain(t);
    BareAgain(u);
  }

  // ["\\" ,1] keeps its space: the closing quote behind the escaped backslash is taken for an escaped one.
  lemma EscapedBackslashKeepsSpace()
    ensures var text := [OPEN_BRACKET, QUOTE, BACKSLASH, BACKSLASH, QUOTE, SPACE, COMMA, 49, CLOSE_BRACKET];
            Minified(text) == text
  {
    hide Minified, InString;
    var text := [OPEN_BRACKET, QUOTE, BACKSLASH, BACKSLASH, QUOTE, SPACE, COMMA, 49, CLOSE_BRACKET];
    var rest := [SPACE, COMMA, 49, CLOSE_BRACKET];
    assert text[1..] == [QUOTE] + [BACKSLASH, BACKSLASH, QUOTE] + rest;
    InertCopied([OPEN_BRACKET], text[1..]);
    assert text == [OPEN_BRACKET] + text[1..];
    MinifiedStep(text[1..]);
    var inside := text[2..];
    assert text[1..][1..] == inside;
    InStringStep(inside);
    assert inside[1..] == [BACKSLASH, QUOTE] + rest;
    InStringStep(inside[1..]);
    assert inside[1..][2..] == rest;
    StringTail(rest);
  }

  lemma {:induction false} StringTail(r: bytes)
    requires forall i :: 0 <= i < |r| ==> r[i] != QUOTE && r[i] != BACKSLASH
    ensures InString(r) == r
    decreases |r|
  {
    hide InString, Minified;
    InStringStep(r);
    if r != [] {
      StringTail(r[1..]);
      assert [r[0]] + r[1..] == r;
    }
  }
}
