// cJSON_Minify: removing white space and comments in place.
module JsonMinify {
  import opened Bytes
  import opened Utf16
  import opened JsonString
  import opened JsonText

  const STAR: byte := 42
  const CARRIAGE_RETURN: byte := 13

  predicate White(b: byte) {
    b == SPACE || b == TAB || b == CARRIAGE_RETURN || b == NEWLINE
  }

  // ----- What is left of a text -----

  function AfterLine(t: bytes): (r: bytes)
    ensures |r| <= |t|
  {
    if t == [] then [] else if t[0] == NEWLINE then t[1..] else AfterLine(t[1..])
  }

  function AfterBlock(t: bytes): (r: bytes)
    ensures |r| <= |t|
  {
    if t == [] then [] else if |t| >= 2 && t[0] == STAR && t[1] == SLASH then t[2..] else AfterBlock(t[1..])
  }

  function Minified(t: bytes): (r: bytes)
    ensures |r| <= |t|
    decreases |t|
  {
    if t == [] then []
    else if White(t[0]) then Minified(t[1..])
    else if t[0] == SLASH then
      if |t| >= 2 && t[1] == SLASH then Minified(AfterLine(t[2..]))
      else if |t| >= 2 && t[1] == STAR then Minified(AfterBlock(t[2..]))
      else Minified(t[1..])
    else if t[0] == QUOTE then [QUOTE] + InString(t[1..])
    else [t[0]] + Minified(t[1..])
  }

  // The rest of a text whose start is taken to be inside a string: a quote ends it unless the byte before is a
  // backslash, even when that backslash is itself escaped.
  function InString(t: bytes): (r: bytes)
    ensures |r| <= |t|
    decreases |t|
  {
    if t == [] then []
    else if t[0] == QUOTE then [QUOTE] + Minified(t[1..])
    else if t[0] == BACKSLASH && |t| >= 2 && t[1] == QUOTE then [BACKSLASH, QUOTE] + InString(t[2..])
    else [t[0]] + InString(t[1..])
  }

  // ----- Where comments end -----

  // A comment behind two slashes ends with its line, or with the text.
  lemma {:induction false} LineEnds(c: bytes, t: bytes)
    requires '\n' as int !in c
    ensures AfterLine(c + Ascii("\n") + t) == t && AfterLine(c) == []
  {
    if c == [] {
      assert Ascii("\n") == [NEWLINE];
      assert [] + [NEWLINE] + t == [NEWLINE] + t && ([NEWLINE] + t)[1..] == t;
    } else {
      assert (c + Ascii("\n") + t)[1..] == c[1..] + Ascii("\n") + t;
      LineEnds(c[1..], t);
    }
  }

  predicate HoldsBlockEnd(c: bytes) {
    exists k :: 0 <= k < |c| - 1 && c[k] == '*' as int && c[k + 1] == '/' as int
  }

  // A comment behind a slash and a star ends behind the first star that a slash follows, or with the text.
  lemma {:induction false} BlockEnds(c: bytes, t: bytes)
    requires !HoldsBlockEnd(c)
    ensures AfterBlock(c + Ascii("*/") + t) == t && AfterBlock(c) == []
  {
    assert Ascii("*/") == [STAR, SLASH];
    if c == [] {
      assert [] + [STAR, SLASH] + t == [STAR, SLASH] + t && ([STAR, SLASH] + t)[2..] == t;
    } else {
      var all := c + [STAR, SLASH] + t;
      assert all[1..] == c[1..] + [STAR, SLASH] + t;
      assert all[1] == (if |c| > 1 then c[1] else STAR);
      HeldByRest(c);
      BlockEnds(c[1..], t);
    }
  }

  lemma HeldByRest(c: bytes)
    requires c != []
    ensures HoldsBlockEnd(c[1..]) ==> HoldsBlockEnd(c)
  {
    if k :| 0 <= k < |c[1..]| - 1 && c[1..][k] == '*' as int && c[1..][k + 1] == '/' as int {
      assert c[k + 1] == '*' as int && c[k + 2] == '/' as int;
    }
  }

  // So comments disappear up to there, wherever they begin outside of strings.
  lemma LineCommentGone(c: bytes, t: bytes)
    requires '\n' as int !in c
    ensures Minified(Ascii("//") + (c + Ascii("\n") + t)) == Minified(t) && Minified(Ascii("//") + c) == []
  {
    assert Ascii("//") == [SLASH, SLASH];
    LineEnds(c, t);
    hide Ascii, Minified, AfterLine;
    Opening(SLASH, c + Ascii("\n") + t);
    Opening(SLASH, c);
  }

  lemma BlockCommentGone(c: bytes, t: bytes)
    requires !HoldsBlockEnd(c)
    ensures Minified(Ascii("/*") + (c + Ascii("*/") + t)) == Minified(t) && Minified(Ascii("/*") + c) == []
  {
    assert Ascii("/*") == [SLASH, STAR];
    BlockEnds(c, t);
    hide Ascii, Minified, AfterBlock;
    Opening(STAR, c + Ascii("*/") + t);
    Opening(STAR, c);
  }

  // A slash that begins no comment disappears alone.
  lemma LoneSlashGone(t: bytes)
    requires t == [] || (t[0] != '/' as int && t[0] != '*' as int)
    ensures Minified(Ascii("/") + t) == Minified(t)
  {
    assert Ascii("/") == [SLASH];
    hide Ascii, Minified;
    MinifiedStep([SLASH] + t);
    assert ([SLASH] + t)[1..] == t;
  }

  lemma Opening(second: byte, t: bytes)
    requires second == SLASH || second == STAR
    ensures Minified([SLASH, second] + t) == Minified(if second == SLASH then AfterLine(t) else AfterBlock(t))
    ensures Minified([]) == []
  {
    hide Minified, AfterLine, AfterBlock, InString;
    MinifiedStep([SLASH, second] + t);
    MinifiedStep([]);
    assert ([SLASH, second] + t)[2..] == t;
  }

  // ----- The algorithm on the caller's buffer -----

  // The C string that starts at a position of the buffer.
  ghost predicate TextAt(s: bytes, from: nat, t: bytes) {
    from + |t| < |s| && s[from..from + |t|] == t && s[from + |t|] == 0 && 0 !in t
  }

  lemma TextStep(s: bytes, from: nat, t: bytes)
    requires TextAt(s, from, t)
    ensures from < |s| && (t == [] <==> s[from] == 0)
    ensures t != [] ==> from + 1 < |s| && s[from] == t[0] && TextAt(s, from + 1, t[1..])
    ensures t != [] ==> s[from + 1] == if |t| > 1 then t[1] else 0
  {
    if t != [] {
      assert s[from..from + |t|][0] == t[0];
      assert s[from + 1..from + |t|] == s[from..from + |t|][1..];
    }
  }

  method SkipLineComment(json: array<byte>, from: nat, ghost t: bytes) returns (next: nat)
    requires |t| >= 2 && TextAt(json[..], from, t)
    ensures from + 2 <= next && TextAt(json[..], next, AfterLine(t[2..]))
  {
    hide TextAt;
    next := from + 2;
    TextStep(json[..], from, t);
    TextStep(json[..], from + 1, t[1..]);
    ghost var rest := t[2..];
    assert t[1..][1..] == rest;
    TextStep(json[..], next, rest);
    while json[next] != 0
      invariant from + 2 <= next < json.Length && TextAt(json[..], next, rest)
      invariant json[next] == 0 <==> rest == []
      invariant AfterLine(t[2..]) == AfterLine(rest)
      decreases |rest|
    {
      TextStep(json[..], next, rest);
      TextStep(json[..], next + 1, rest[1..]);
      if json[next] == NEWLINE {
        return next + 1;
      }
      rest := rest[1..];
      next := next + 1;
    }
  }

  method SkipBlockComment(json: array<byte>, from: nat, ghost t: bytes) returns (next: nat)
    requires |t| >= 2 && TextAt(json[..], from, t)
    ensures from + 2 <= next && TextAt(json[..], next, AfterBlock(t[2..]))
  {
    hide TextAt;
    next := from + 2;
    TextStep(json[..], from, t);
    TextStep(json[..], from + 1, t[1..]);
    ghost var rest := t[2..];
    assert t[1..][1..] == rest;
    TextStep(json[..], next, rest);
    while json[next] != 0
      invariant from + 2 <= next < json.Length && TextAt(json[..], next, rest)
      invariant json[next] == 0 <==> rest == []
      invariant AfterBlock(t[2..]) == AfterBlock(rest)
      decreases |rest|
    {
      TextStep(json[..], next, rest);
      TextStep(json[..], next + 1, rest[1..]);
      if json[next] == STAR && json[next + 1] == SLASH {
        assert rest[1..][1..] == rest[2..];
        return next + 2;
      }
      rest := rest[1..];
      next := next + 1;
    }
  }

  // What is stored so far, followed by what minifying the unread rest gives.
  ghost predicate Progress(json: array<byte>, into: nat, next: nat, rest: bytes, result: bytes, inside: bool)
    reads json
  {
    && into <= next < json.Length
    && TextAt(json[..], next, rest)
    && result == json[..into] + (if inside then InString(rest) else Minified(rest))
  }

  // A store behind the read position leaves what is still to be read unchanged.
  method Store(json: array<byte>, into: nat, b: byte, ghost next: nat, ghost rest: bytes)
    requires into < next < json.Length && TextAt(json[..], next, rest)
    modifies json
    ensures json[..into + 1] == old(json[..into]) + [b]
    ensures TextAt(json[..], next, rest)
  {
    json[into] := b;
    assert json[next..next + |rest|] == old(json[next..next + |rest|]);
  }

  lemma ProgressStep(json: array<byte>, into: nat, next: nat, rest: bytes, result: bytes, inside: bool)
    requires Progress(json, into, next, rest, result, inside)
    ensures into <= next < json.Length && (json[next] == 0 <==> rest == [])
    ensures rest != [] ==>
        json[next] == rest[0] && next + 1 < json.Length && json[next + 1] == if |rest| > 1 then rest[1] else 0
  {
    hide TextAt, Minified, InString;
    TextStep(json[..], next, rest);
  }

  // One round of the loop inside a string.
  method CopyInString(json: array<byte>, next: nat, into: nat, ghost rest: bytes, ghost result: bytes)
    returns (next': nat, into': nat, closed: bool, ghost rest': bytes)
    requires Progress(json, into, next, rest, result, true) && rest != []
    modifies json
    ensures Progress(json, into', next', rest', result, !closed) && |rest'| < |rest|
  {
    hide Progress;
    ProgressStep(json, into, next, rest, result, true);
    if json[next] == QUOTE {
      CopyQuote(json, next, into, rest, result);
      return next + 1, into + 1, true, rest[1..];
    } else if json[next] == BACKSLASH && json[next + 1] == QUOTE {
      CopyEscapedQuote(json, next, into, rest, result);
      return next + 2, into + 2, false, rest[2..];
    } else {
      CopyPlain(json, next, into, rest, result);
      return next + 1, into + 1, false, rest[1..];
    }
  }

  // The write cursor never overtakes the read cursor; they move together inside a string.
  method MinifyString(json: array<byte>, from: nat, out: nat, ghost t: bytes, ghost result: bytes)
    returns (next: nat, into: nat, ghost rest: bytes)
    requires Progress(json, out, from, t, result, false) && t != [] && t[0] == QUOTE
    modifies json
    ensures Progress(json, into, next, rest, result, false) && |rest| < |t|
  {
    hide Progress;
    CopyOpening(json, from, out, t, result);
    next, into, rest := from + 1, out + 1, t[1..];
    ProgressStep(json, into, next, rest, result, true);
    while json[next] != 0
      invariant Progress(json, into, next, rest, result, true) && |rest| < |t|
      invariant next < json.Length && (json[next] == 0 <==> rest == [])
      decreases |rest|
    {
      var closed;
      next, into, closed, rest := CopyInString(json, next, into, rest, result);
      if closed {
        return;
      }
      ProgressStep(json, into, next, rest, result, true);
    }
    Unterminated(json, into, next, result);
  }

  // A string that the text ends in counts as finished.
  lemma Unterminated(json: array<byte>, into: nat, next: nat, result: bytes)
    requires Progress(json, into, next, [], result, true)
    ensures Progress(json, into, next, [], result, false)
  {
  }

  method CopyOpening(json: array<byte>, next: nat, into: nat, ghost rest: bytes, ghost result: bytes)
    requires Progress(json, into, next, rest, result, false) && rest != [] && rest[0] == QUOTE
    modifies json
    ensures Progress(json, into + 1, next + 1, rest[1..], result, true)
  {
    hide TextAt, InString, Minified;
    MinifiedStep(rest);
    ghost var done, tail := json[..into], rest[1..];
    TextStep(json[..], next, rest);
    TextStep(json[..], next + 1, tail);
    Store(json, into, json[next], next + 1, tail);
    assert done + ([QUOTE] + InString(tail)) == json[..into + 1] + InString(tail);
  }

  // Anything outside strings that is neither white space nor a slash.
  method CopyOther(json: array<byte>, next: nat, into: nat, ghost rest: bytes, ghost result: bytes)
    requires Progress(json, into, next, rest, result, false) && rest != []
    requires !White(rest[0]) && rest[0] != QUOTE && rest[0] != SLASH
    modifies json
    ensures Progress(json, into + 1, next + 1, rest[1..], result, false)
  {
    hide TextAt, InString, Minified;
    MinifiedStep(rest);
    ghost var done, tail := json[..into], rest[1..];
    TextStep(json[..], next, rest);
    TextStep(json[..], next + 1, tail);
    Store(json, into, json[next], next + 1, tail);
    assert done + ([rest[0]] + Minified(tail)) == json[..into + 1] + Minified(tail);
  }

  // The closing quote.
  method CopyQuote(json: array<byte>, next: nat, into: nat, ghost rest: bytes, ghost result: bytes)
    requires Progress(json, into, next, rest, result, true) && rest != [] && rest[0] == QUOTE
    modifies json
    ensures Progress(json, into + 1, next + 1, rest[1..], result, false)
  {
    hide TextAt, InString, Minified;
    InStringStep(rest);
    ghost var done, tail := json[..into], rest[1..];
    TextStep(json[..], next, rest);
    TextStep(json[..], next + 1, tail);
    Store(json, into, QUOTE, next + 1, tail);
    assert done + ([QUOTE] + Minified(tail)) == json[..into + 1] + Minified(tail);
  }

  method CopyPlain(json: array<byte>, next: nat, into: nat, ghost rest: bytes, ghost result: bytes)
    requires Progress(json, into, next, rest, result, true) && rest != [] && rest[0] != QUOTE
    requires !(|rest| >= 2 && rest[0] == BACKSLASH && rest[1] == QUOTE)
    modifies json
    ensures Progress(json, into + 1, next + 1, rest[1..], result, true)
  {
    hide TextAt, InString, Minified;
    InStringStep(rest);
    ghost var done, tail := json[..into], rest[1..];
    TextStep(json[..], next, rest);
    TextStep(json[..], next + 1, tail);
    Store(json, into, json[next], next + 1, tail);
    assert done + ([rest[0]] + InString(tail)) == json[..into + 1] + InString(tail);
  }

  method CopyEscapedQuote(json: array<byte>, next: nat, into: nat, ghost rest: bytes, ghost result: bytes)
    requires Progress(json, into, next, rest, result, true)
    requires |rest| >= 2 && rest[0] == BACKSLASH && rest[1] == QUOTE
    modifies json
    ensures Progress(json, into + 2, next + 2, rest[2..], result, true)
  {
    hide TextAt, InString, Minified;
    InStringStep(rest);
    ghost var done, tail := json[..into], rest[2..];
    assert rest[1..][1..] == tail;
    TextStep(json[..], next, rest);
    TextStep(json[..], next + 1, rest[1..]);
    TextStep(json[..], next + 2, tail);
    Store(json, into, BACKSLASH, next + 2, tail);
    Store(json, into + 1, QUOTE, next + 2, tail);
    TwoMore(done, InString(tail));
  }

  lemma TwoMore(done: bytes, rest: bytes)
    ensures done + ([BACKSLASH, QUOTE] + rest) == done + [BACKSLASH] + [QUOTE] + rest
  {
  }

  lemma InStringStep(t: bytes)
    ensures t == [] ==> InString(t) == []
    ensures t != [] && t[0] == QUOTE ==> InString(t) == [QUOTE] + Minified(t[1..])
    ensures |t| >= 2 && t[0] == BACKSLASH && t[1] == QUOTE ==> InString(t) == [BACKSLASH, QUOTE] + InString(t[2..])
    ensures t != [] && t[0] != QUOTE && !(|t| >= 2 && t[0] == BACKSLASH && t[1] == QUOTE) ==>
              InString(t) == [t[0]] + InString(t[1..])
  {
  }

  lemma MinifiedStep(t: bytes)
    ensures t == [] ==> Minified(t) == []
    ensures t != [] && White(t[0]) ==> Minified(t) == Minified(t[1..])
    ensures t != [] && t[0] == QUOTE ==> Minified(t) == [QUOTE] + InString(t[1..])
    ensures t != [] && !White(t[0]) && t[0] != QUOTE && t[0] != SLASH ==> Minified(t) == [t[0]] + Minified(t[1..])
    ensures t != [] && t[0] == SLASH ==>
              Minified(t) == if |t| >= 2 && t[1] == SLASH then Minified(AfterLine(t[2..]))
                             else if |t| >= 2 && t[1] == STAR then Minified(AfterBlock(t[2..]))
                             else Minified(t[1..])
  {
  }

  // A slash starts a comment or is dropped.
  method SkipSlash(json: array<byte>, from: nat, ghost into: nat, ghost t: bytes, ghost result: bytes)
    returns (next: nat, ghost rest: bytes)
    requires Progress(json, into, from, t, result, false) && t != [] && t[0] == SLASH
    ensures Progress(json, into, next, rest, result, false) && |rest| < |t|
  {
    hide TextAt, Minified, InString, AfterLine, AfterBlock;
    MinifiedStep(t);
    TextStep(json[..], from, t);
    TextStep(json[..], from + 1, t[1..]);
    if json[from + 1] == SLASH {
      next := SkipLineComment(json, from, t);
      rest := AfterLine(t[2..]);
    } else if json[from + 1] == STAR {
      next := SkipBlockComment(json, from, t);
      rest := AfterBlock(t[2..]);
    } else {
      next, rest := from + 1, t[1..];
    }
    TextStep(json[..], next, rest);
  }

  // cJSON_Minify: two cursors over one buffer, then the terminator.
  method Minify(json: array<byte>, ghost text: bytes)
    requires TextAt(json[..], 0, text)
    modifies json
    ensures |Minified(text)| < json.Length && json[..|Minified(text)| + 1] == Minified(text) + [0]
  {
    hide Progress;
    var into: nat, next: nat := 0, 0;
    ghost var rest, result := text, Minified(text);
    Beginning(json, text);
    ProgressStep(json, into, next, rest, result, false);
    while json[next] != 0
      invariant Progress(json, into, next, rest, result, false)
      invariant next < json.Length && (json[next] == 0 <==> rest == [])
      decreases |rest|
    {
      ProgressStep(json, into, next, rest, result, false);
      var c := json[next];
      if White(c) {
        SkipWhite(json, next, into, rest, result);
        next, rest := next + 1, rest[1..];
      } else if c == SLASH {
        next, rest := SkipSlash(json, next, into, rest, result);
      } else if c == QUOTE {
        next, into, rest := MinifyString(json, next, into, rest, result);
      } else {
        CopyOther(json, next, into, rest, result);
        next, into, rest := next + 1, into + 1, rest[1..];
      }
      ProgressStep(json, into, next, rest, result, false);
    }
    Finished(json, into, next, result);
    json[into] := 0;
    assert json[..into + 1] == json[..into] + [0];
  }

  lemma Beginning(json: array<byte>, text: bytes)
    requires TextAt(json[..], 0, text)
    ensures Progress(json, 0, 0, text, Minified(text), false)
  {
    hide Minified;
    assert json[..0] + Minified(text) == Minified(text);
  }

  lemma SkipWhite(json: array<byte>, next: nat, into: nat, rest: bytes, result: bytes)
    requires Progress(json, into, next, rest, result, false) && rest != [] && White(rest[0])
    ensures Progress(json, into, next + 1, rest[1..], result, false)
  {
    hide TextAt, Minified, InString;
    MinifiedStep(rest);
    TextStep(json[..], next, rest);
  }

  lemma Finished(json: array<byte>, into: nat, next: nat, result: bytes)
    requires Progress(json, into, next, [], result, false)
    ensures into <= next < json.Length && json[..into] == result
  {
    assert json[..into] + [] == json[..into];
  }
}
