// String literals of RFC 8259, section 7: which bytes may stand between the quotes, which of these texts name
// characters (section 8.2 warns that some do not), and that the reader accepts exactly those.
module StringGrammar {
  import opened Bytes
  import opened Utf16
  import opened JsonString

  // ----- The grammar of section 7 -----

  // One char of the grammar: an unescaped byte (on the level of bytes, any but a control character, a quote or a
  // backslash), a two-character escape, or \u with four hex digits, which may name any code unit.
  datatype Piece = Plain(b: byte) | Short(letter: byte) | CodeUnit(unit: nat)

  function PieceLength(p: Piece): nat {
    match p
    case Plain(_) => 1
    case Short(_) => 2
    case CodeUnit(_) => 6
  }

  function FirstPiece(b: bytes): (p: Option<Piece>)
    requires b != []
    ensures p.Some? ==> 0 < PieceLength(p.value) <= |b|
  {
    if b[0] != BACKSLASH then if b[0] >= 32 && b[0] != QUOTE then Some(Plain(b[0])) else None
    else if |b| >= 2 && ShortUnescape(b[1]).Some? then Some(Short(b[1]))
    else if |b| >= 6 && b[1] == LETTER_U && FourHex(b, 2) then Some(CodeUnit(Hex4(b, 2)))
    else None
  }

  // The chars of a body, if it belongs to the grammar.
  function Pieces(b: bytes): Option<seq<Piece>> {
    if b == [] then Some([])
    else
      match FirstPiece(b)
      case None => None
      case Some(p) =>
        match Pieces(b[PieceLength(p)..])
        case None => None
        case Some(rest) => Some([p] + rest)
  }

  predicate StandardBody(b: bytes) {
    Pieces(b).Some?
  }

  predicate High(p: Piece) {
    p.CodeUnit? && HighSurrogate(p.unit)
  }

  predicate Low(p: Piece) {
    p.CodeUnit? && LowSurrogate(p.unit)
  }

  // No lone and no reversed surrogate: every escaped high surrogate comes right before an escaped low one, and every
  // escaped low one right after a high one.
  predicate Paired(ps: seq<Piece>) {
    forall i :: 0 <= i < |ps| ==> PairedAt(ps, i)
  }

  predicate PairedAt(ps: seq<Piece>, i: nat)
    requires i < |ps|
  {
    (High(ps[i]) ==> i + 1 < |ps| && Low(ps[i + 1])) && (Low(ps[i]) ==> i > 0 && High(ps[i - 1]))
  }

  predicate NoLoneSurrogate(b: bytes) {
    StandardBody(b) ==> Paired(Pieces(b).value)
  }

  // ----- What such a body denotes, read from left to right -----

  // Length of the escape \uXXXX or \uXXXX\uXXXX of a scalar value at the start of b; 0 if there is none.
  function ScalarEscape(b: bytes): (n: nat)
    ensures n == 0 || n == 6 || n == 12
    ensures n <= |b|
  {
    if |b| < 6 || b[0] != BACKSLASH || b[1] != LETTER_U || !FourHex(b, 2) || LowSurrogate(Hex4(b, 2)) then 0
    else if !HighSurrogate(Hex4(b, 2)) then 6
    else if |b| < 12 || b[6] != BACKSLASH || b[7] != LETTER_U || !FourHex(b, 8) || !LowSurrogate(Hex4(b, 8)) then 0
    else 12
  }

  // The scalar value that such an escape names.
  function EscapedScalar(b: bytes): (cp: nat)
    requires ScalarEscape(b) != 0
    ensures ScalarValue(cp)
  {
    if ScalarEscape(b) == 6 then Hex4(b, 2)
    else
      PairSplits(Hex4(b, 2), Hex4(b, 8));
      PairCodePoint(Hex4(b, 2), Hex4(b, 8))
  }

  datatype Unit = Unit(length: nat, text: bytes)

  // The first character that a body denotes: an unescaped byte, a two-character escape, or the escape of a scalar
  // value.
  function FirstUnit(b: bytes): (u: Option<Unit>)
    requires b != []
    ensures u.Some? ==> 0 < u.value.length <= |b|
  {
    if b[0] != BACKSLASH then if b[0] >= 32 && b[0] != QUOTE then Some(Unit(1, [b[0]])) else None
    else if |b| >= 2 && ShortUnescape(b[1]).Some? then Some(Unit(2, [ShortUnescape(b[1]).value]))
    else if ScalarEscape(b) != 0 then Some(Unit(ScalarEscape(b), Utf8(EscapedScalar(b))))
    else None
  }

  // The text a body denotes, if all its escapes name characters.
  function Denotes(b: bytes): Option<bytes> {
    if b == [] then Some([])
    else
      match FirstUnit(b)
      case None => None
      case Some(u) => Prefixed(u.text, Denotes(b[u.length..]))
  }

  lemma BehindPiece(b: bytes)
    requires b != [] && StandardBody(b)
    ensures FirstPiece(b).Some? && StandardBody(b[PieceLength(FirstPiece(b).value)..])
  {
    hide FirstPiece;
  }

  lemma {:induction false} DenotesIsStandard(b: bytes)
    requires Denotes(b).Some?
    ensures StandardBody(b)
    decreases |b|
  {
    if b != [] {
      var n := FirstUnit(b).value.length;
      DenotesIsStandard(b[n..]);
      if n == 12 {
        assert FirstPiece(b) == Some(CodeUnit(Hex4(b, 2)));
        SecondUnit(b);
        assert b[6..][6..] == b[12..];
      }
    }
  }

  // The escape behind the first one.
  lemma SecondUnit(b: bytes)
    requires |b| >= 12 && b[6] == BACKSLASH && b[7] == LETTER_U && FourHex(b, 8)
    ensures FirstPiece(b[6..]) == Some(CodeUnit(Hex4(b, 8)))
  {
    var c := b[6..];
    assert c[0] == b[6] && c[1] == b[7] && c[2] == b[8] && c[3] == b[9] && c[4] == b[10] && c[5] == b[11];
  }

  // A body of section 7 denotes a text if and only if its surrogates are paired.
  lemma {:induction false} DenotesExactly(b: bytes)
    requires StandardBody(b)
    ensures Denotes(b).Some? <==> Paired(Pieces(b).value)
    decreases |b|
  {
    hide FirstPiece, FirstUnit, Paired, ScalarEscape;
    if b != [] {
      BehindPiece(b);
      var p := FirstPiece(b).value;
      var rest := b[PieceLength(p)..];
      var ps := Pieces(rest).value;
      assert Pieces(b).value == [p] + ps;
      hide Pieces, StandardBody;
      DenotesExactly(rest);
      if High(p) && ps != [] && Low(ps[0]) {
        HighFirst(b, p, ps);
        DenotesExactly(rest[6..]);
        PairDenotes(b, p, ps);
      } else {
        OneFirst(b, p, ps);
      }
    } else {
      NothingPaired();
    }
  }

  lemma NothingPaired()
    ensures Paired([])
  {
  }

  lemma PairDenotes(b: bytes, p: Piece, ps: seq<Piece>)
    requires |b| >= 12 && FirstPiece(b) == Some(p) && High(p) && ps != [] && Low(ps[0]) && ScalarEscape(b) == 12
    ensures b[6..][6..] == b[12..]
    ensures Denotes(b).Some? <==> Denotes(b[12..]).Some?
    ensures Paired([p] + ps) <==> Paired(ps[1..])
  {
    assert FirstUnit(b).Some? && FirstUnit(b).value.length == 12;
    hide FirstUnit, Paired;
    assert [p] + ps == [p, ps[0]] + ps[1..];
    FrontPaired([p, ps[0]], ps[1..]);
  }

  // Any other first piece is read alone, or not at all.
  lemma OneFirst(b: bytes, p: Piece, ps: seq<Piece>)
    requires b != [] && FirstPiece(b) == Some(p) && Pieces(b[PieceLength(p)..]) == Some(ps)
    requires !(High(p) && ps != [] && Low(ps[0]))
    requires Denotes(b[PieceLength(p)..]).Some? <==> Paired(ps)
    ensures Denotes(b).Some? <==> Paired([p] + ps)
  {
    if High(p) {
      HighFirst(b, p, ps);
      assert !PairedAt([p] + ps, 0);
    } else if Low(p) {
      assert FirstUnit(b).None?;
      assert !PairedAt([p] + ps, 0);
    } else {
      assert FirstUnit(b).Some? && FirstUnit(b).value.length == PieceLength(p);
      hide FirstUnit, FirstPiece, Pieces, Paired;
      FrontPaired([p], ps);
    }
  }

  // A high surrogate is read together with the low one behind it, or not at all.
  lemma HighFirst(b: bytes, p: Piece, ps: seq<Piece>)
    requires b != [] && FirstPiece(b) == Some(p) && High(p) && Pieces(b[6..]) == Some(ps)
    ensures ps != [] && Low(ps[0]) ==> |b| >= 12 && ScalarEscape(b) == 12 && Pieces(b[6..][6..]) == Some(ps[1..])
    ensures ps == [] || !Low(ps[0]) ==> ScalarEscape(b) == 0 && FirstUnit(b).None?
  {
    var c := b[6..];
    if c != [] {
      assert c[0] == b[6];
      if ScalarEscape(b) == 12 {
        SecondUnit(b);
      }
      if Low(ps[0]) {
        assert c[1] == b[7] && c[2] == b[8] && c[3] == b[9] && c[4] == b[10] && c[5] == b[11];
        assert Hex4(b, 8) == Hex4(c, 2);
      }
    }
  }

  // What comes behind complete pairs is paired on its own.
  lemma FrontPaired(front: seq<Piece>, ps: seq<Piece>)
    requires front != [] && !High(front[|front| - 1])
    requires forall i :: 0 <= i < |front| ==> PairedAt(front + ps, i)
    ensures Paired(front + ps) <==> Paired(ps)
  {
    var all, n := front + ps, |front|;
    forall i | 0 <= i < |ps| ensures PairedAt(all, n + i) <==> PairedAt(ps, i) {
      assert all[n + i] == ps[i] && all[n + i - 1] == (if i > 0 then ps[i - 1] else front[n - 1]);
      assert i + 1 < |ps| ==> all[n + i + 1] == ps[i + 1];
    }
    if Paired(ps) {
      forall i | 0 <= i < |all| ensures PairedAt(all, i) {
        assert i >= n ==> PairedAt(ps, i - n);
      }
    }
  }

  // ----- Reading a body inside a larger text -----

  // The unit at the start of a body, seen at its place in a text: it is skipped by the first pass and its text is
  // written by the second.
  lemma UnitIsRead(s: bytes, i: nat, b: bytes, e: nat)
    requires b != [] && FirstUnit(b).Some? && At(s, i, b) && i + |b| <= e < |s|
    ensures var u := FirstUnit(b).value;
            ScanEnd(s, i) == ScanEnd(s, i + u.length)
                && Unescape(s, i, e) == Prefixed(u.text, Unescape(s, i + u.length, e))
  {
    forall k | 0 <= k < |b| ensures s[i + k] == b[k] {
      AtByte(s, i, b, k);
    }
    hide At;
    if b[0] == BACKSLASH && !(|b| >= 2 && ShortUnescape(b[1]).Some?) {
      ScalarIsRead(s, i, b, e);
    }
  }

  lemma ScalarIsRead(s: bytes, i: nat, b: bytes, e: nat)
    requires ScalarEscape(b) != 0 && i + |b| <= e < |s| && (forall k :: 0 <= k < |b| ==> s[i + k] == b[k])
    ensures ScanEnd(s, i) == ScanEnd(s, i + ScalarEscape(b))
    ensures Unescape(s, i, e) == Prefixed(Utf8(EscapedScalar(b)), Unescape(s, i + ScalarEscape(b), e))
  {
    ScalarIsScanned(s, i, b);
    ScalarIsLiteral(s, i, b, e);
    assert s[i] == b[0] && s[i + 1] == b[1];
    hide ScanEnd, LiteralAt, EscapedScalar, Utf8, Hex4, FourHex;
  }

  lemma ScalarIsScanned(s: bytes, i: nat, b: bytes)
    requires ScalarEscape(b) != 0 && i + |b| < |s| && (forall k :: 0 <= k < |b| ==> s[i + k] == b[k])
    ensures ScanEnd(s, i) == ScanEnd(s, i + ScalarEscape(b))
  {
    hide ScanEnd;
    assert s[i] == b[0] && s[i + 1] == b[1] && s[i + 2] == b[2] && s[i + 3] == b[3] && s[i + 4] == b[4]
        && s[i + 5] == b[5];
    UnitIsScanned(s, i);
    if ScalarEscape(b) == 12 {
      assert s[i + 6] == b[6] && s[i + 7] == b[7] && s[i + 8] == b[8] && s[i + 9] == b[9] && s[i + 10] == b[10]
          && s[i + 11] == b[11];
      UnitIsScanned(s, i + 6);
    }
  }

  lemma ScalarIsLiteral(s: bytes, i: nat, b: bytes, e: nat)
    requires ScalarEscape(b) != 0 && i + |b| <= e < |s| && (forall k :: 0 <= k < |b| ==> s[i + k] == b[k])
    ensures LiteralAt(s, i, e) == Some(Utf16.Literal(Utf8(EscapedScalar(b)), ScalarEscape(b)))
  {
    hide HexValue, Utf8;
    assert s[i + 2] == b[2] && s[i + 3] == b[3] && s[i + 4] == b[4] && s[i + 5] == b[5];
    assert Hex4(s, i + 2) == Hex4(b, 2);
    if ScalarEscape(b) == 12 {
      assert s[i + 6] == b[6] && s[i + 7] == b[7] && s[i + 8] == b[8] && s[i + 9] == b[9] && s[i + 10] == b[10]
          && s[i + 11] == b[11];
      assert Hex4(s, i + 8) == Hex4(b, 8);
    }
    hide Hex4, FourHex;
  }

  lemma UnitIsScanned(s: bytes, i: nat)
    requires i + 6 <= |s| && s[i] == BACKSLASH && s[i + 1] == LETTER_U && FourHex(s, i + 2)
    ensures ScanEnd(s, i) == ScanEnd(s, i + 6)
  {
    assert ScanEnd(s, i) == ScanEnd(s, i + 2);
    assert ScanEnd(s, i + 2) == ScanEnd(s, i + 3);
    assert ScanEnd(s, i + 3) == ScanEnd(s, i + 4);
    assert ScanEnd(s, i + 4) == ScanEnd(s, i + 5);
  }

  // The first pass skips a piece as a whole.
  lemma PieceIsScanned(s: bytes, i: nat, b: bytes)
    requires b != [] && FirstPiece(b).Some? && At(s, i, b) && i + |b| < |s|
    ensures ScanEnd(s, i) == ScanEnd(s, i + PieceLength(FirstPiece(b).value))
  {
    AtByte(s, i, b, 0);
    if b[0] == BACKSLASH {
      AtByte(s, i, b, 1);
      if FirstPiece(b).value.CodeUnit? {
        AtByte(s, i, b, 2);
        AtByte(s, i, b, 3);
        AtByte(s, i, b, 4);
        AtByte(s, i, b, 5);
        hide At, ScanEnd, HexValue;
        UnitIsScanned(s, i);
      }
    }
  }

  // So it stops at the closing quote.
  lemma {:induction false} BodyIsScanned(s: bytes, i: nat, b: bytes)
    requires At(s, i, b + [QUOTE]) && StandardBody(b)
    ensures i + |b| < |s| && ScanEnd(s, i) == Some(i + |b|)
    decreases |b|
  {
    hide FirstPiece, ScanEnd;
    if b == [] {
      EmptyBody(s, i);
    } else {
      var n := PieceLength(FirstPiece(b).value);
      AtFront(s, i, b, [QUOTE]);
      AtRest(s, i, b, [QUOTE], n);
      hide At;
      PieceIsScanned(s, i, b);
      BodyIsScanned(s, i + n, b[n..]);
    }
  }

  function Escapes(ps: seq<Piece>): nat {
    if ps == [] then 0 else (if ps[0].Plain? then 0 else 1) + Escapes(ps[1..])
  }

  // And it counts one byte less than the body has for every escape in it, so a body without \u gets a buffer of exactly
  // its size.
  lemma {:induction false} BodyIsCounted(s: bytes, i: nat, b: bytes)
    requires At(s, i, b + [QUOTE]) && StandardBody(b)
    ensures i + |b| < |s| && ScanEnd(s, i) == Some(i + |b|) && Units(s, i) == |b| - Escapes(Pieces(b).value)
    decreases |b|
  {
    BodyIsScanned(s, i, b);
    hide FirstPiece, ScanEnd;
    if b == [] {
      NoEscapes(s, i);
    } else {
      var p := FirstPiece(b).value;
      var n := PieceLength(p);
      assert Pieces(b).value[1..] == Pieces(b[n..]).value;
      AtFront(s, i, b, [QUOTE]);
      AtRest(s, i, b, [QUOTE], n);
      hide At, Pieces, Units, StandardBody, Escapes;
      PieceIsScanned(s, i, b);
      PieceIsCounted(s, i, b);
      BodyIsCounted(s, i + n, b[n..]);
      OneMoreEscape(b);
    }
  }

  lemma NoEscapes(s: bytes, i: nat)
    requires i < |s| && ScanEnd(s, i) == Some(i)
    ensures Units(s, i) == 0 && Escapes([]) == 0
  {
  }

  lemma OneMoreEscape(b: bytes)
    requires b != [] && StandardBody(b)
    ensures var p := FirstPiece(b);
            p.Some? && StandardBody(b[PieceLength(p.value)..])
            && Escapes(Pieces(b).value) == (if p.value.Plain? then 0 else 1)
                                           + Escapes(Pieces(b[PieceLength(p.value)..]).value)
  {
    hide FirstPiece;
    assert Pieces(b).value[1..] == Pieces(b[PieceLength(FirstPiece(b).value)..]).value;
  }

  lemma PieceIsCounted(s: bytes, i: nat, b: bytes)
    requires b != [] && FirstPiece(b).Some? && At(s, i, b) && i + |b| < |s| && ScanEnd(s, i).Some?
    ensures var p := FirstPiece(b).value;
            && ScanEnd(s, i + PieceLength(p)).Some?
            && Units(s, i) == Units(s, i + PieceLength(p)) + PieceLength(p) - if p.Plain? then 0 else 1
  {
    AtByte(s, i, b, 0);
    if b[0] == BACKSLASH {
      AtByte(s, i, b, 1);
      if FirstPiece(b).value.CodeUnit? {
        AtByte(s, i, b, 2);
        AtByte(s, i, b, 3);
        AtByte(s, i, b, 4);
        AtByte(s, i, b, 5);
        hide At, HexValue;
        UnitIsScanned(s, i);
        hide FirstPiece;
        EndsInside(s, i);
        JsonString.SecondUnit(s, i, ScanEnd(s, i).value);
      }
    }
  }

  lemma EndsInside(s: bytes, i: nat)
    requires i + 6 <= |s| && ScanEnd(s, i).Some? && ScanEnd(s, i) == ScanEnd(s, i + 6)
    ensures i + 6 <= ScanEnd(s, i).value
  {
  }

  // The second pass rejects a lone or reversed surrogate.
  lemma LoneIsRejected(s: bytes, i: nat, b: bytes)
    requires At(s, i, b + [QUOTE]) && b != [] && StandardBody(b) && FirstUnit(b).None?
    ensures i + |b| < |s| && Unescape(s, i, i + |b|).None?
  {
    forall k | 0 <= k < |b| ensures i + |b| < |s| && s[i + k] == b[k] {
      AtByte(s, i, b + [QUOTE], k);
    }
    hide At, HexValue;
    assert s[i + 2] == b[2] && s[i + 3] == b[3] && s[i + 4] == b[4] && s[i + 5] == b[5];
    assert Hex4(s, i + 2) == Hex4(b, 2);
    if |b| >= 12 {
      assert s[i + 6] == b[6] && s[i + 7] == b[7];
      assert s[i + 8] == b[8] && s[i + 9] == b[9] && s[i + 10] == b[10] && s[i + 11] == b[11];
      assert Hex4(s, i + 8) == Hex4(b, 8);
      if b[6] == BACKSLASH && b[7] == LETTER_U {
        BehindPiece(b);
        FourHexNext(b);
      }
    }
    assert LiteralAt(s, i, i + |b|).None?;
  }

  lemma FourHexNext(b: bytes)
    requires |b| >= 12 && b[6] == BACKSLASH && b[7] == LETTER_U && StandardBody(b[6..])
    ensures FourHex(b, 8)
  {
    var c := b[6..];
    assert c[0] == b[6] && c[1] == b[7] && c[2] == b[8] && c[3] == b[9] && c[4] == b[10] && c[5] == b[11];
    BehindPiece(c);
  }

  // Every body of the grammar, wherever it stands, is read as what it denotes: the first pass stops at its closing
  // quote, and the second writes the text, or fails if there is none.
  lemma {:induction false} BodyIsRead(s: bytes, i: nat, b: bytes)
    requires At(s, i, b + [QUOTE]) && StandardBody(b)
    ensures i + |b| < |s| && ScanEnd(s, i) == Some(i + |b|) && Unescape(s, i, i + |b|) == Denotes(b)
    decreases |b|
  {
    hide At, ScanEnd, Unescape, FirstUnit, FirstPiece, Prefixed, Denotes;
    BodyIsScanned(s, i, b);
    if b == [] {
      EmptyBody(s, i);
    } else if FirstUnit(b).None? {
      LoneIsRejected(s, i, b);
      NoUnit(b);
    } else {
      var u := FirstUnit(b).value;
      FirstOfMany(b);
      AtFront(s, i, b, [QUOTE]);
      AtRest(s, i, b, [QUOTE], u.length);
      UnitIsRead(s, i, b, i + |b|);
      BodyIsRead(s, i + u.length, b[u.length..]);
    }
  }

  lemma NoUnit(b: bytes)
    requires b != [] && FirstUnit(b).None?
    ensures Denotes(b).None?
  {
  }

  // Behind the first character stands a body again.
  lemma FirstOfMany(b: bytes)
    requires b != [] && StandardBody(b) && FirstUnit(b).Some?
    ensures var u := FirstUnit(b).value;
            StandardBody(b[u.length..]) && Denotes(b) == Prefixed(u.text, Denotes(b[u.length..]))
  {
    hide Denotes, StandardBody;
    BehindPiece(b);
    if FirstUnit(b).value.length == 12 {
      SecondUnit(b);
      BehindPiece(b[6..]);
      assert b[6..][6..] == b[12..];
    }
    UnfoldDenotes(b);
  }

  lemma UnfoldDenotes(b: bytes)
    requires b != [] && FirstUnit(b).Some?
    ensures var u := FirstUnit(b).value; Denotes(b) == Prefixed(u.text, Denotes(b[u.length..]))
  {
    hide FirstUnit;
  }

  lemma EmptyBody(s: bytes, i: nat)
    requires At(s, i, [] + [QUOTE])
    ensures i < |s| && ScanEnd(s, i) == Some(i) && Unescape(s, i, i) == Denotes([])
  {
    AtByte(s, i, [] + [QUOTE], 0);
  }

  // ----- What the reader looks at -----

  // A body that the first pass ends at its last byte, and one that the second pass accepts. What the passes make of a
  // body depends on nothing but its own bytes and the closing quote.
  predicate Closed(b: bytes) {
    ScanEnd(b + [QUOTE], 0) == Some(|b|)
  }

  predicate Decodable(b: bytes) {
    Unescape(b + [QUOTE], 0, |b|).Some?
  }

  predicate Readable(b: bytes) {
    Closed(b) && Decodable(b)
  }

  function ReadText(b: bytes): bytes
    requires Readable(b)
  {
    CString(Unescape(b + [QUOTE], 0, |b|).value)
  }

  lemma {:induction false} ScanIsLocal(s: bytes, i: nat, b: bytes, j: nat)
    requires At(s, i, b + [QUOTE]) && j <= |b| + 1
    ensures ScanEnd(s, i + j) == Some(i + |b|) <==> ScanEnd(b + [QUOTE], j) == Some(|b|)
    decreases |b| + 1 - j
  {
    var p := b + [QUOTE];
    if j <= |b| {
      AtByte(s, i, p, j);
      if j < |b| {
        hide At;
        if p[j] == BACKSLASH {
          ScanIsLocal(s, i, b, j + 2);
        } else {
          ScanIsLocal(s, i, b, j + 1);
        }
      }
    }
  }

  lemma LiteralIsLocal(s: bytes, i: nat, b: bytes, j: nat)
    requires At(s, i, b + [QUOTE]) && j < |b|
    ensures LiteralAt(s, i + j, i + |b|) == LiteralAt(b + [QUOTE], j, |b|)
  {
    var p := b + [QUOTE];
    forall k | 0 <= k < |p| ensures s[i + k] == p[k] {
      AtByte(s, i, p, k);
    }
    hide At, Utf8, HexValue;
    if j + 6 <= |b| {
      assert s[i + j + 2] == p[j + 2] && s[i + j + 3] == p[j + 3] && s[i + j + 4] == p[j + 4]
          && s[i + j + 5] == p[j + 5];
      assert Hex4(s, i + j + 2) == Hex4(p, j + 2);
    }
    if j + 12 <= |b| {
      assert s[i + j + 6] == p[j + 6] && s[i + j + 7] == p[j + 7];
      assert s[i + j + 8] == p[j + 8] && s[i + j + 9] == p[j + 9] && s[i + j + 10] == p[j + 10]
          && s[i + j + 11] == p[j + 11];
      assert Hex4(s, i + j + 8) == Hex4(p, j + 8);
    }
    hide Hex4, FourHex;
  }

  lemma {:induction false} UnescapeIsLocal(s: bytes, i: nat, b: bytes, j: nat)
    requires At(s, i, b + [QUOTE]) && j <= |b| + 1
    ensures Unescape(s, i + j, i + |b|) == Unescape(b + [QUOTE], j, |b|)
    decreases |b| + 1 - j
  {
    var p := b + [QUOTE];
    if j < |b| {
      AtByte(s, i, p, j);
      AtByte(s, i, p, j + 1);
      hide At, LiteralAt;
      if p[j] != BACKSLASH {
        UnescapeIsLocal(s, i, b, j + 1);
      } else if p[j + 1] == LETTER_U {
        LiteralIsLocal(s, i, b, j);
        if LiteralAt(p, j, |b|).Some? {
          UnescapeIsLocal(s, i, b, j + LiteralAt(p, j, |b|).value.consumed);
        }
      } else {
        UnescapeIsLocal(s, i, b, j + 2);
      }
    }
  }

  // Reading a literal anywhere is reading it alone: no byte behind the closing quote makes a difference.
  lemma ReadingIsLocal(s: bytes, i: nat, b: bytes)
    requires At(s, i, b + [QUOTE])
    ensures ScanEnd(s, i) == Some(i + |b|) <==> ScanEnd(b + [QUOTE], 0) == Some(|b|)
    ensures Unescape(s, i, i + |b|) == Unescape(b + [QUOTE], 0, |b|)
  {
    hide At, ScanEnd, Unescape;
    ScanIsLocal(s, i, b, 0);
    UnescapeIsLocal(s, i, b, 0);
  }

  // A string body of section 7 is readable if and only if no escape in it is a lone or reversed surrogate; it is then
  // read as the text it denotes, up to a NUL, where a C string ends.
  lemma StandardBodyIsRead(b: bytes)
    requires StandardBody(b)
    ensures Closed(b) && (Decodable(b) <==> NoLoneSurrogate(b))
    ensures Denotes(b).Some? <==> NoLoneSurrogate(b)
    ensures Decodable(b) ==> ReadText(b) == CString(Denotes(b).value)
  {
    hide Denotes, ScanEnd, Unescape, Pieces;
    BodyIsRead(b + [QUOTE], 0, b);
    DenotesExactly(b);
  }

  lemma {:induction false} BodyHasNoNul(b: bytes)
    requires StandardBody(b)
    ensures NoNul(b)
    decreases |b|
  {
    if b != [] {
      var n := PieceLength(FirstPiece(b).value);
      BehindPiece(b);
      BodyHasNoNul(b[n..]);
      assert b == b[..n] + b[n..];
      assert NoNul(b[..n]);
      NoNulConcat(b[..n], b[n..]);
    }
  }

  // ----- Printed literals -----

  // One escaped byte is one unit, denoting that byte, whatever follows it.
  lemma EscapedByteIsUnit(c: byte, r: bytes)
    ensures EscapeByte(c) + r != [] && FirstUnit(EscapeByte(c) + r) == Some(Unit(|EscapeByte(c)|, [c]))
  {
    var b := EscapeByte(c) + r;
    if ShortEscape(c).None? && c < 32 {
      assert b[0] == BACKSLASH && b[1] == LETTER_U && b[2] == 48 && b[3] == 48 && b[4] == HexDigit(c / 16)
          && b[5] == HexDigit(c % 16);
      assert Hex4(b, 2) == c;
    }
  }

  // What Escape prints belongs to the grammar and denotes the text.
  lemma {:induction false} EscapeDenotes(t: bytes)
    ensures Denotes(Escape(t)) == Some(t)
  {
    if t != [] {
      var head, rest := EscapeByte(t[0]), Escape(t[1..]);
      EscapedByteIsUnit(t[0], rest);
      EscapeDenotes(t[1..]);
      assert (head + rest)[|head|..] == rest;
      assert [t[0]] + t[1..] == t;
      hide FirstUnit, EscapeByte;
    }
  }
}
