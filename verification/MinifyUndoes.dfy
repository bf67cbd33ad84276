// When minifying formatted output gives the unformatted output: exactly when no string ends in a backslash, except
// possibly the very last thing printed before closing brackets.
module MinifyUndoes {
  import opened Bytes
  import opened Utf16
  import opened JsonValue
  import opened JsonNumber
  import opened JsonString
  import opened JsonText
  import opened JsonMinify

  predicate EndsInBackslash(t: bytes) {
    t != [] && t[|t| - 1] == BACKSLASH
  }

  // No string and no key ends in a backslash.
  predicate Clean(v: Value)
    decreases v, 0
  {
    match v
    case String(t) => !EndsInBackslash(t)
    case Array(items) => CleanItems(items)
    case Object(ms) => CleanMembers(ms)
    case _ => true
  }

  predicate CleanItems(items: seq<Value>)
    decreases items, 1
  {
    items == [] || (Clean(items[0]) && CleanItems(items[1..]))
  }

  predicate CleanMembers(ms: seq<Member>)
    decreases ms, 1
  {
    ms == [] || (!EndsInBackslash(ms[0].key) && Clean(ms[0].value) && CleanMembers(ms[1..]))
  }

  // As Clean, but the last leaf may be a string ending in a backslash if only arrays enclose it.
  predicate Minifiable(v: Value)
    decreases v, 0
  {
    match v
    case Array(items) => MinifiableItems(items)
    case Object(ms) => CleanMembers(ms)
    case _ => true
  }

  predicate MinifiableItems(items: seq<Value>)
    decreases items, 1
  {
    items == [] || (if |items| == 1 then Minifiable(items[0]) else Clean(items[0]) && MinifiableItems(items[1..]))
  }

  // ----- Pieces of text -----

  // Bytes that are copied unchanged wherever they stand.
  predicate Inert(p: bytes) {
    forall i :: 0 <= i < |p| ==> !White(p[i]) && p[i] != QUOTE && p[i] != SLASH && p[i] != BACKSLASH
  }

  lemma {:induction false} InertCopied(p: bytes, r: bytes)
    requires Inert(p)
    ensures Minified(p + r) == p + Minified(r)
    ensures InString(p + r) == p + InString(r)
    decreases |p|
  {
    hide Minified, InString;
    if p == [] {
      assert [] + r == r && [] + Minified(r) == Minified(r) && [] + InString(r) == InString(r);
    } else {
      InertFirst(p, r);
      InertCopied(p[1..], r);
      FirstAgain(p, Minified(r));
      FirstAgain(p, InString(r));
    }
  }

  lemma InertFirst(p: bytes, r: bytes)
    requires Inert(p) && p != []
    ensures Minified(p + r) == [p[0]] + Minified(p[1..] + r) && InString(p + r) == [p[0]] + InString(p[1..] + r)
        && Inert(p[1..])
  {
    hide Minified, InString;
    assert (p + r)[1..] == p[1..] + r;
    MinifiedStep(p + r);
    InStringStep(p + r);
  }

  lemma FirstAgain(p: bytes, x: bytes)
    requires p != []
    ensures [p[0]] + (p[1..] + x) == p + x
  {
  }

  lemma {:induction false} WhiteDropped(w: bytes, r: bytes)
    requires forall i :: 0 <= i < |w| ==> White(w[i])
    ensures Minified(w + r) == Minified(r)
    decreases |w|
  {
    if w == [] {
      assert w + r == r;
    } else {
      assert (w + r)[1..] == w[1..] + r;
      WhiteDropped(w[1..], r);
    }
  }

  // Two bytes that start with a backslash; a second backslash must not meet a quote.
  lemma PairCopied(b: byte, r: bytes)
    requires b == BACKSLASH ==> r != [] && r[0] != QUOTE
    ensures InString([BACKSLASH, b] + r) == [BACKSLASH, b] + InString(r)
  {
    hide InString, Minified;
    var t := [BACKSLASH, b] + r;
    assert t[1..] == [b] + r && t[2..] == r && t[1..][1..] == r;
    InStringStep(t);
    InStringStep(t[1..]);
    assert [BACKSLASH] + ([b] + InString(r)) == [BACKSLASH, b] + InString(r);
  }

  // One escaped byte is copied; a backslash's second half must not meet a quote.
  lemma EscapeByteCopied(c: byte, r: bytes)
    requires c == BACKSLASH ==> r != [] && r[0] != QUOTE
    ensures InString(EscapeByte(c) + r) == EscapeByte(c) + InString(r)
  {
    hide InString, Minified;
    var p := EscapeByte(c);
    if |p| == 1 {
      assert (p + r)[1..] == r;
      InStringStep(p + r);
    } else if |p| == 2 {
      PairCopied(p[1], r);
    } else {
      var digits := p[2..];
      assert p == [BACKSLASH, LETTER_U] + digits;
      assert p + r == [BACKSLASH, LETTER_U] + (digits + r);
      PairCopied(LETTER_U, digits + r);
      InertCopied(digits, r);
      assert [BACKSLASH, LETTER_U] + (digits + InString(r)) == p + InString(r);
    }
  }

  // Inside a string, the printed text and its closing quote are copied. If the text ends in a backslash the quote is
  // taken for an escaped one, and what follows is still read as string.
  lemma {:induction false} EscapeCopied(t: bytes, r: bytes)
    ensures InString(Escape(t) + [QUOTE] + r)
            == Escape(t) + [QUOTE] + (if EndsInBackslash(t) then InString(r) else Minified(r))
    decreases |t|
  {
    if t == [] {
      hide InString, Minified;
      assert Escape(t) + [QUOTE] + r == [QUOTE] + r && ([QUOTE] + r)[1..] == r;
      InStringStep([QUOTE] + r);
    } else if t == [BACKSLASH] {
      LastBackslash(r);
    } else {
      hide InString, Minified, EscapeByte, Escape;
      var c, rest := t[0], t[1..];
      var tail := if EndsInBackslash(t) then InString(r) else Minified(r);
      EscapeFirst(t, r);
      EscapeFirst(t, tail);
      if c == BACKSLASH {
        EscapeStart(rest);
        assert (Escape(rest) + [QUOTE] + r)[0] == Escape(rest)[0];
      }
      EscapeByteCopied(c, Escape(rest) + [QUOTE] + r);
      EscapeCopied(rest, r);
      assert EndsInBackslash(t) == EndsInBackslash(rest);
    }
  }

  lemma EscapeFirst(t: bytes, r: bytes)
    requires t != []
    ensures Escape(t) + [QUOTE] + r == EscapeByte(t[0]) + (Escape(t[1..]) + [QUOTE] + r)
  {
  }

  lemma EscapeStart(t: bytes)
    requires t != []
    ensures Escape(t) != [] && Escape(t)[0] != QUOTE
  {
  }

  lemma LastBackslash(r: bytes)
    ensures InString(Escape([BACKSLASH]) + [QUOTE] + r) == Escape([BACKSLASH]) + [QUOTE] + InString(r)
  {
    hide Minified, InString;
    assert Escape([BACKSLASH]) == [BACKSLASH, BACKSLASH] by {
      assert EscapeByte(BACKSLASH) == [BACKSLASH, BACKSLASH];
    }
    var s := [BACKSLASH] + ([BACKSLASH, QUOTE] + r);
    assert Escape([BACKSLASH]) + [QUOTE] + r == s;
    assert s[1..] == [BACKSLASH, QUOTE] + r;
    InStringStep(s);
    PairCopied(QUOTE, r);
    assert [BACKSLASH] + ([BACKSLASH, QUOTE] + InString(r)) == Escape([BACKSLASH]) + [QUOTE] + InString(r);
  }

  lemma QuotedCopied(t: bytes, r: bytes)
    ensures Minified(Quoted(t) + r) == Quoted(t) + (if EndsInBackslash(t) then InString(r) else Minified(r))
  {
    hide InString, Minified, Escape;
    var body := Escape(t) + [QUOTE] + r;
    assert Quoted(t) + r == [QUOTE] + body && ([QUOTE] + body)[1..] == body;
    MinifiedStep([QUOTE] + body);
    EscapeCopied(t, r);
    var tail := if EndsInBackslash(t) then InString(r) else Minified(r);
    assert [QUOTE] + (Escape(t) + [QUOTE] + tail) == Quoted(t) + tail;
  }

  lemma PrintIntInert(n: int)
    ensures Inert(PrintInt(n))
  {
    PrintIntBytes(n);
  }

  // ----- Clean values -----

  // Formatting is undone, whatever follows.
  lemma {:induction false} CleanUndone(v: Value, depth: nat, r: bytes)
    requires Clean(v)
    ensures Minified(Print(v, true, depth) + r) == Print(v, false, depth) + Minified(r)
    decreases v, 0
  {
    hide Minified, InString;
    match v {
      case String(t) => QuotedCopied(t, r);
      case Number(n) =>
        PrintIntInert(n);
        InertCopied(PrintInt(n), r);
      case Array(items) =>
        ArrayOpen(items, depth, r);
        CleanItemsUndone(items, depth + 1, [CLOSE_BRACKET] + r);
        InertCopied([CLOSE_BRACKET], r);
        ArrayUnformatted(items, depth, Minified(r));
      case Object(ms) =>
        ObjectOpen(ms, depth, r);
        CleanMembersUndone(ms, depth + 1, CloseObject(depth) + r);
        ObjectClose(depth, r);
        ObjectUnformatted(ms, depth, Minified(r));
      case Null => InertCopied(NULL_TEXT, r);
      case True => InertCopied(TRUE_TEXT, r);
      case False => InertCopied(FALSE_TEXT, r);
    }
  }

  lemma ArrayOpen(items: seq<Value>, depth: nat, r: bytes)
    ensures Minified(Print(Array(items), true, depth) + r)
            == [OPEN_BRACKET] + Minified(PrintItems(items, true, depth + 1) + ([CLOSE_BRACKET] + r))
  {
    hide Minified, PrintItems;
    var body := PrintItems(items, true, depth + 1);
    assert Print(Array(items), true, depth) + r == [OPEN_BRACKET] + (body + ([CLOSE_BRACKET] + r));
    InertCopied([OPEN_BRACKET], body + ([CLOSE_BRACKET] + r));
  }

  lemma ArrayUnformatted(items: seq<Value>, depth: nat, x: bytes)
    ensures Print(Array(items), false, depth) + x
            == [OPEN_BRACKET] + (PrintItems(items, false, depth + 1) + ([CLOSE_BRACKET] + x))
  {
    hide PrintItems;
  }

  function CloseObject(depth: nat): bytes {
    Tabs(depth) + [CLOSE_BRACE]
  }

  lemma ObjectOpen(ms: seq<Member>, depth: nat, r: bytes)
    ensures Minified(Print(Object(ms), true, depth) + r)
            == [OPEN_BRACE] + Minified(PrintMembers(ms, true, depth + 1) + (CloseObject(depth) + r))
  {
    hide Minified, PrintMembers;
    var body := PrintMembers(ms, true, depth + 1) + (CloseObject(depth) + r);
    assert Print(Object(ms), true, depth) + r == [OPEN_BRACE] + ([NEWLINE] + body);
    InertCopied([OPEN_BRACE], [NEWLINE] + body);
    WhiteDropped([NEWLINE], body);
  }

  lemma ObjectClose(depth: nat, r: bytes)
    ensures Minified(CloseObject(depth) + r) == [CLOSE_BRACE] + Minified(r)
  {
    hide Minified;
    assert CloseObject(depth) + r == Tabs(depth) + ([CLOSE_BRACE] + r);
    WhiteDropped(Tabs(depth), [CLOSE_BRACE] + r);
    InertCopied([CLOSE_BRACE], r);
  }

  lemma ObjectUnformatted(ms: seq<Member>, depth: nat, x: bytes)
    ensures Print(Object(ms), false, depth) + x
            == [OPEN_BRACE] + (PrintMembers(ms, false, depth + 1) + ([CLOSE_BRACE] + x))
  {
    hide PrintMembers;
  }

  // Between two items the space after the comma disappears.
  lemma SeparatorUndone(r: bytes)
    ensures Minified([COMMA, SPACE] + r) == [COMMA] + Minified(r)
  {
    hide Minified;
    assert [COMMA, SPACE] + r == [COMMA] + ([SPACE] + r);
    InertCopied([COMMA], [SPACE] + r);
    WhiteDropped([SPACE], r);
  }

  lemma ItemsSplit(items: seq<Value>, format: bool, depth: nat, r: bytes)
    requires |items| > 1
    ensures PrintItems(items, format, depth) + r
            == Print(items[0], format, depth) + (ItemSeparator(format) + (PrintItems(items[1..], format, depth) + r))
  {
  }

  lemma {:induction false} CleanItemsUndone(items: seq<Value>, depth: nat, r: bytes)
    requires CleanItems(items)
    ensures Minified(PrintItems(items, true, depth) + r) == PrintItems(items, false, depth) + Minified(r)
    decreases items, 1
  {
    hide Minified, Print, Clean;
    if items == [] {
      assert [] + r == r && [] + Minified(r) == Minified(r);
    } else if |items| == 1 {
      CleanUndone(items[0], depth, r);
    } else {
      var rest := PrintItems(items[1..], true, depth) + r;
      ItemsSplit(items, true, depth, r);
      CleanUndone(items[0], depth, [COMMA, SPACE] + rest);
      SeparatorUndone(rest);
      CleanItemsUndone(items[1..], depth, r);
      ItemsSplit(items, false, depth, Minified(r));
      Separators();
    }
  }

  lemma Separators()
    ensures ItemSeparator(true) == [COMMA, SPACE] && ItemSeparator(false) == [COMMA]
  {
  }

  lemma MembersSplit(ms: seq<Member>, format: bool, depth: nat, r: bytes)
    requires ms != []
    ensures PrintMembers(ms, format, depth) + r
            == IfFormatted(format, Tabs(depth)) + (Quoted(ms[0].key) + ([COLON] + (IfFormatted(format, [TAB])
               + (Print(ms[0].value, format, depth)
                   + (MemberEnd(|ms| == 1, format) + (PrintMembers(ms[1..], format, depth) + r))))))
  {
    hide Print, Quoted, MemberEnd, IfFormatted, Tabs;
    SevenWays(IfFormatted(format, Tabs(depth)), Quoted(ms[0].key), [COLON], IfFormatted(format, [TAB]),
              Print(ms[0].value, format, depth), MemberEnd(|ms| == 1, format), PrintMembers(ms[1..], format, depth), r);
  }

  lemma SevenWays(t: bytes, k: bytes, c: bytes, g: bytes, v: bytes, e: bytes, m: bytes, r: bytes)
    ensures ((t + k + c + g) + v + e) + m + r == t + (k + (c + (g + (v + (e + (m + r))))))
  {
    assert ((t + k + c + g) + v + e) + m + r == (t + k + c + g) + (v + (e + (m + r)));
    assert (t + k + c + g) + (v + (e + (m + r))) == t + (k + (c + (g + (v + (e + (m + r))))));
  }

  lemma {:induction false} CleanMembersUndone(ms: seq<Member>, depth: nat, r: bytes)
    requires CleanMembers(ms)
    ensures Minified(PrintMembers(ms, true, depth) + r) == PrintMembers(ms, false, depth) + Minified(r)
    decreases ms, 1
  {
    hide Minified, Print, Clean, Quoted, PrintMembers;
    if ms == [] {
      NoMembers(depth, r);
    } else {
      CleanMembersUndone(ms[1..], depth, r);
      MembersSplit(ms, true, depth, r);
      MembersSplit(ms, false, depth, Minified(r));
      var rest := PrintMembers(ms[1..], true, depth) + r;
      var end := MemberEnd(|ms| == 1, true) + rest;
      MemberEndUndone(|ms| == 1, rest);
      CleanUndone(ms[0].value, depth, end);
      KeyUndone(ms[0].key, depth, Print(ms[0].value, true, depth) + end);
    }
  }

  lemma NoMembers(depth: nat, r: bytes)
    ensures forall format :: PrintMembers([], format, depth) == []
    ensures [] + r == r && [] + Minified(r) == Minified(r)
  {
  }

  lemma MemberEndUndone(last: bool, r: bytes)
    ensures Minified(MemberEnd(last, true) + r) == MemberEnd(last, false) + Minified(r)
  {
    hide Minified;
    var comma := if last then [] else [COMMA];
    assert MemberEnd(last, true) + r == comma + ([NEWLINE] + r) && MemberEnd(last, false) == comma;
    InertCopied(comma, [NEWLINE] + r);
    WhiteDropped([NEWLINE], r);
  }

  lemma KeyUndone(key: bytes, depth: nat, r: bytes)
    requires !EndsInBackslash(key)
    ensures Minified(Tabs(depth) + (Quoted(key) + ([COLON] + ([TAB] + r))))
        == [] + (Quoted(key) + ([COLON] + ([] + Minified(r))))
  {
    hide Minified, Quoted, InString, EndsInBackslash;
    WhiteDropped(Tabs(depth), Quoted(key) + ([COLON] + ([TAB] + r)));
    QuotedCopied(key, [COLON] + ([TAB] + r));
    InertCopied([COLON], [TAB] + r);
    WhiteDropped([TAB], r);
    NothingAdded(Quoted(key), Minified(r));
  }

  lemma NothingAdded(k: bytes, x: bytes)
    ensures [] + (k + ([COLON] + ([] + x))) == k + ([COLON] + x)
  {
    assert [] + x == x;
  }

  // ----- The tolerated last string -----

  predicate Closing(r: bytes) {
    forall i :: 0 <= i < |r| ==> r[i] == CLOSE_BRACKET
  }

  lemma ClosingCopied(r: bytes)
    requires Closing(r)
    ensures Minified(r) == r && InString(r) == r
  {
    InertCopied(r, []);
    assert r + [] == r && Minified([]) == [] && InString([]) == [];
  }

  lemma {:induction false} MinifiableUndone(v: Value, depth: nat, r: bytes)
    requires Minifiable(v) && Closing(r)
    ensures Minified(Print(v, true, depth) + r) == Print(v, false, depth) + r
    decreases v, 0
  {
    hide Minified, InString;
    ClosingCopied(r);
    match v {
      case String(t) => QuotedCopied(t, r);
      case Array(items) =>
        ArrayOpen(items, depth, r);
        MinifiableItemsUndone(items, depth + 1, [CLOSE_BRACKET] + r);
        ArrayUnformatted(items, depth, r);
      case _ => CleanUndone(v, depth, r);
    }
  }

  lemma {:induction false} MinifiableItemsUndone(items: seq<Value>, depth: nat, r: bytes)
    requires MinifiableItems(items) && Closing(r)
    ensures Minified(PrintItems(items, true, depth) + r) == PrintItems(items, false, depth) + r
    decreases items, 1
  {
    hide Minified, Print, Minifiable, Clean;
    if items == [] {
      ClosingCopied(r);
      assert [] + r == r;
    } else if |items| == 1 {
      MinifiableUndone(items[0], depth, r);
    } else {
      var rest := PrintItems(items[1..], true, depth) + r;
      ItemsSplit(items, true, depth, r);
      CleanUndone(items[0], depth, [COMMA, SPACE] + rest);
      SeparatorUndone(rest);
      MinifiableItemsUndone(items[1..], depth, r);
      ItemsSplit(items, false, depth, r);
      Separators();
    }
  }

  // ----- Everything else is not undone -----

  // f and u agree up to some white space that only f has, with no quote or backslash before it.
  predicate DivergesAt(f: bytes, u: bytes, k: nat) {
    && k < |f| && k <= |u| && f[..k] == u[..k]
    && (forall i :: 0 <= i < k ==> f[i] != QUOTE && f[i] != BACKSLASH)
    && White(f[k]) && (k < |u| ==> !White(u[k]))
  }

  ghost predicate Diverges(f: bytes, u: bytes) {
    exists k :: DivergesAt(f, u, k)
  }

  lemma DivergesBehind(p: bytes, f: bytes, u: bytes)
    requires Diverges(f, u) && (forall i :: 0 <= i < |p| ==> p[i] != QUOTE && p[i] != BACKSLASH)
    ensures Diverges(p + f, p + u)
  {
    var k: nat :| DivergesAt(f, u, k);
    assert k < |f| && k <= |u|;
    assert (p + f)[..|p| + k] == p + f[..k] && (p + u)[..|p| + k] == p + u[..k];
    assert DivergesAt(p + f, p + u, |p| + k);
  }

  lemma DivergesNow(w: bytes, f: bytes, u: bytes)
    requires w != [] && White(w[0]) && (u != [] ==> !White(u[0]))
    ensures Diverges(w + f, u)
  {
    assert DivergesAt(w + f, u, 0);
  }

  // Text that is wrongly read as string keeps its white space.
  lemma {:induction false} StringKeepsWhite(f: bytes, k: nat)
    requires k < |f| && (forall i :: 0 <= i < k ==> f[i] != QUOTE && f[i] != BACKSLASH) && White(f[k])
    ensures k < |InString(f)| && InString(f)[k] == f[k]
    decreases k
  {
    if k > 0 {
      StringKeepsWhite(f[1..], k - 1);
      InStringStep(f);
    }
  }

  lemma DivergedStays(f: bytes, u: bytes)
    requires Diverges(f, u)
    ensures InString(f) != u
  {
    var k :| DivergesAt(f, u, k);
    StringKeepsWhite(f, k);
  }

  lemma Apart(p: bytes, a: bytes, b: bytes)
    requires a != b
    ensures p + a != p + b
  {
    assert a == (p + a)[|p|..] && b == (p + b)[|p|..];
  }

  lemma PrintStartsPlain(v: Value, format: bool, depth: nat)
    ensures !White(Print(v, format, depth)[0])
  {
    if v.Number? {
      PrintIntBytes(v.n);
    }
  }

  lemma {:induction false} DirtyKept(v: Value, depth: nat, f: bytes, u: bytes)
    requires !Clean(v) && Diverges(f, u)
    ensures Minified(Print(v, true, depth) + f) != Print(v, false, depth) + u
    decreases v, 0
  {
    hide Minified, InString, Diverges;
    match v {
      case String(t) =>
        QuotedCopied(t, f);
        DivergedStays(f, u);
        Apart(Quoted(t), InString(f), u);
      case Array(items) =>
        ArrayOpen(items, depth, f);
        DivergesBehind([CLOSE_BRACKET], f, u);
        DirtyItemsKept(items, depth + 1, [CLOSE_BRACKET] + f, [CLOSE_BRACKET] + u);
        ArrayUnformatted(items, depth, u);
        Apart([OPEN_BRACKET], Minified(PrintItems(items, true, depth + 1) + ([CLOSE_BRACKET] + f)),
              PrintItems(items, false, depth + 1) + ([CLOSE_BRACKET] + u));
      case Object(ms) => DirtyObjectKept(v, depth, f, u);
    }
  }

  lemma {:induction false} DirtyItemsKept(items: seq<Value>, depth: nat, f: bytes, u: bytes)
    requires !CleanItems(items) && Diverges(f, u)
    ensures Minified(PrintItems(items, true, depth) + f) != PrintItems(items, false, depth) + u
    decreases items, 1
  {
    hide Minified, Print, Clean, Diverges;
    if |items| == 1 {
      DirtyKept(items[0], depth, f, u);
    } else if !Clean(items[0]) {
      DirtyItemKept(items, depth, f, u);
    } else {
      DirtyItemsKept(items[1..], depth, f, u);
      AfterCleanItem(items, depth, f, u);
    }
  }

  // What a clean first item leaves different stays different.
  lemma AfterCleanItem(items: seq<Value>, depth: nat, f: bytes, u: bytes)
    requires |items| > 1 && Clean(items[0])
    requires Minified(PrintItems(items[1..], true, depth) + f) != PrintItems(items[1..], false, depth) + u
    ensures Minified(PrintItems(items, true, depth) + f) != PrintItems(items, false, depth) + u
  {
    hide Minified, Print, Clean, PrintItems;
    var rest, plain := PrintItems(items[1..], true, depth) + f, PrintItems(items[1..], false, depth) + u;
    ItemsSplit(items, true, depth, f);
    ItemsSplit(items, false, depth, u);
    Separators();
    CleanUndone(items[0], depth, [COMMA, SPACE] + rest);
    SeparatorUndone(rest);
    Apart([COMMA], Minified(rest), plain);
    Apart(Print(items[0], false, depth), [COMMA] + Minified(rest), [COMMA] + plain);
  }

  // An item before another one: the space after its comma is kept.
  lemma {:induction false} DirtyItemKept(items: seq<Value>, depth: nat, f: bytes, u: bytes)
    requires |items| > 1 && !Clean(items[0])
    ensures Minified(PrintItems(items, true, depth) + f) != PrintItems(items, false, depth) + u
    decreases items, 0
  {
    hide Minified, Print, Clean, Diverges;
    var rest, plain := PrintItems(items[1..], true, depth) + f, PrintItems(items[1..], false, depth) + u;
    ItemsSplit(items, true, depth, f);
    ItemsSplit(items, false, depth, u);
    Separators();
    PrintStartsPlain(items[1], false, depth);
    assert plain[0] == Print(items[1], false, depth)[0];
    DivergesNow([SPACE], rest, plain);
    DivergesBehind([COMMA], [SPACE] + rest, plain);
    assert [COMMA] + ([SPACE] + rest) == [COMMA, SPACE] + rest;
    DirtyKept(items[0], depth, [COMMA, SPACE] + rest, [COMMA] + plain);
  }

  lemma {:induction false} DirtyObjectKept(v: Value, depth: nat, f: bytes, u: bytes)
    requires v.Object? && !Clean(v)
    ensures Minified(Print(v, true, depth) + f) != Print(v, false, depth) + u
    decreases v, -1
  {
    hide Minified, Print, PrintMembers, CleanMembers;
    ObjectOpen(v.members, depth, f);
    ObjectUnformatted(v.members, depth, u);
    DirtyMembersKept(v.members, depth + 1, CloseObject(depth) + f, [CLOSE_BRACE] + u);
    Apart([OPEN_BRACE], Minified(PrintMembers(v.members, true, depth + 1) + (CloseObject(depth) + f)),
          PrintMembers(v.members, false, depth + 1) + ([CLOSE_BRACE] + u));
  }

  // Inside an object some white space follows every key and every value, so no bad string is tolerated.
  lemma {:induction false} DirtyMembersKept(ms: seq<Member>, depth: nat, f: bytes, u: bytes)
    requires !CleanMembers(ms) && u != [] && !White(u[0])
    ensures Minified(PrintMembers(ms, true, depth) + f) != PrintMembers(ms, false, depth) + u
    decreases ms, 1
  {
    hide Minified, Print, PrintMembers, Quoted, Clean, Diverges, InString, MemberEnd;
    var m, last := ms[0], |ms| == 1;
    var rest, plain := PrintMembers(ms[1..], true, depth) + f, PrintMembers(ms[1..], false, depth) + u;
    var value := Print(m.value, true, depth) + (MemberEnd(last, true) + rest);
    var value' := Print(m.value, false, depth) + (MemberEnd(last, false) + plain);
    MembersSplit(ms, true, depth, f);
    MembersSplit(ms, false, depth, u);
    if EndsInBackslash(m.key) {
      PrintStartsPlain(m.value, false, depth);
      assert value'[0] == Print(m.value, false, depth)[0];
      DirtyKeyKept(m.key, depth, value, value');
    } else {
      if !Clean(m.value) {
        PlainStart(ms[1..], depth, u);
        MemberEndDiverges(last, rest, plain);
        DirtyKept(m.value, depth, MemberEnd(last, true) + rest, MemberEnd(last, false) + plain);
      } else {
        DirtyMembersKept(ms[1..], depth, f, u);
        CleanValueApart(m.value, last, depth, rest, plain);
      }
      KeyApart(m.key, depth, value, value');
    }
  }

  // Behind a clean value the difference stays.
  lemma CleanValueApart(v: Value, last: bool, depth: nat, rest: bytes, plain: bytes)
    requires Clean(v) && Minified(rest) != plain
    ensures Minified(Print(v, true, depth) + (MemberEnd(last, true) + rest))
            != Print(v, false, depth) + (MemberEnd(last, false) + plain)
  {
    hide Minified, Print, Clean, MemberEnd;
    CleanUndone(v, depth, MemberEnd(last, true) + rest);
    MemberEndUndone(last, rest);
    Apart(MemberEnd(last, false), Minified(rest), plain);
    Apart(Print(v, false, depth), MemberEnd(last, false) + Minified(rest), MemberEnd(last, false) + plain);
  }

  // Behind a clean key as well.
  lemma KeyApart(key: bytes, depth: nat, value: bytes, value': bytes)
    requires !EndsInBackslash(key) && Minified(value) != value'
    ensures Minified(Tabs(depth) + (Quoted(key) + ([COLON] + ([TAB] + value))))
        != [] + (Quoted(key) + ([COLON] + ([] + value')))
  {
    hide Minified, Quoted;
    KeyUndone(key, depth, value);
    Apart(Quoted(key) + [COLON], Minified(value), value');
    assert [] + (Quoted(key) + ([COLON] + ([] + Minified(value)))) == Quoted(key) + [COLON] + Minified(value);
    assert [] + (Quoted(key) + ([COLON] + ([] + value'))) == Quoted(key) + [COLON] + value';
  }

  lemma PlainStart(ms: seq<Member>, depth: nat, u: bytes)
    requires u != [] && !White(u[0])
    ensures var plain := PrintMembers(ms, false, depth) + u; plain != [] && !White(plain[0])
  {
    hide Print;
    if ms != [] {
      MembersSplit(ms, false, depth, u);
      assert Quoted(ms[0].key)[0] == QUOTE;
    }
  }

  lemma MemberEndDiverges(last: bool, f: bytes, u: bytes)
    requires u != [] && !White(u[0])
    ensures Diverges(MemberEnd(last, true) + f, MemberEnd(last, false) + u)
  {
    hide Diverges;
    var comma := if last then [] else [COMMA];
    DivergesNow([NEWLINE], f, u);
    DivergesBehind(comma, [NEWLINE] + f, u);
    assert comma + ([NEWLINE] + f) == MemberEnd(last, true) + f;
    assert MemberEnd(last, false) == comma;
  }

  lemma DirtyKeyKept(key: bytes, depth: nat, f: bytes, u: bytes)
    requires EndsInBackslash(key) && (u != [] ==> !White(u[0]))
    ensures Minified(Tabs(depth) + (Quoted(key) + ([COLON] + ([TAB] + f)))) != [] + (Quoted(key) + ([COLON] + ([] + u)))
  {
    hide Minified, InString, Quoted, Diverges;
    WhiteDropped(Tabs(depth), Quoted(key) + ([COLON] + ([TAB] + f)));
    QuotedCopied(key, [COLON] + ([TAB] + f));
    DivergesNow([TAB], f, u);
    DivergesBehind([COLON], [TAB] + f, u);
    DivergedStays([COLON] + ([TAB] + f), [COLON] + u);
    Apart(Quoted(key), InString([COLON] + ([TAB] + f)), [COLON] + u);
    assert [] + (Quoted(key) + ([COLON] + ([] + u))) == Quoted(key) + ([COLON] + u);
  }

  lemma {:induction false} UnminifiableKept(v: Value, depth: nat, r: bytes)
    requires !Minifiable(v) && Closing(r)
    ensures Minified(Print(v, true, depth) + r) != Print(v, false, depth) + r
    decreases v, 0
  {
    hide Minified, InString;
    match v {
      case Array(items) =>
        ArrayOpen(items, depth, r);
        UnminifiableItemsKept(items, depth + 1, [CLOSE_BRACKET] + r);
        ArrayUnformatted(items, depth, r);
        Apart([OPEN_BRACKET], Minified(PrintItems(items, true, depth + 1) + ([CLOSE_BRACKET] + r)),
              PrintItems(items, false, depth + 1) + ([CLOSE_BRACKET] + r));
      case Object(ms) => DirtyObjectKept(v, depth, r, r);
    }
  }

  lemma {:induction false} UnminifiableItemsKept(items: seq<Value>, depth: nat, r: bytes)
    requires !MinifiableItems(items) && Closing(r)
    ensures Minified(PrintItems(items, true, depth) + r) != PrintItems(items, false, depth) + r
    decreases items, 1
  {
    hide Minified, Print, Minifiable, Clean;
    if |items| == 1 {
      UnminifiableKept(items[0], depth, r);
    } else if !Clean(items[0]) {
      DirtyItemKept(items, depth, r, r);
    } else {
      UnminifiableItemsKept(items[1..], depth, r);
      AfterCleanItem(items, depth, r, r);
    }
  }

  // Minifying formatted output gives the unformatted output exactly for these values.
  lemma MinifyUndoesFormatting(v: Value)
    ensures Minified(Print(v, true, 0)) == Print(v, false, 0) <==> Minifiable(v)
  {
    hide Minified, Print, Minifiable;
    assert Print(v, true, 0) + [] == Print(v, true, 0) && Print(v, false, 0) + [] == Print(v, false, 0);
    if Minifiable(v) {
      MinifiableUndone(v, 0, []);
    } else {
      UnminifiableKept(v, 0, []);
    }
  }

  // In particular for every value without a string or key that ends in a backslash.
  lemma {:induction false} CleanIsMinifiable(v: Value)
    requires Clean(v)
    ensures Minifiable(v)
    decreases v, 0
  {
    if v.Array? {
      CleanItemsAreMinifiable(v.items);
    }
  }

  lemma {:induction false} CleanItemsAreMinifiable(items: seq<Value>)
    requires CleanItems(items)
    ensures MinifiableItems(items)
    decreases items, 1
  {
    if items != [] {
      CleanIsMinifiable(items[0]);
      CleanItemsAreMinifiable(items[1..]);
    }
  }
}
